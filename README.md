# Job-file protocol of the Z-Image loop runner

`zimage_loop_from_file.py` is an interactive loop. It repeatedly reads a job file
(`prompts.txt`) and generates one batch of images per accepted line. This project models the
part of that script that involves no GPU or I/O, and proves its properties in Dafny. The
modelled parts are:

- **Size token parsing (`parse_size`).** A token such as `1024x1344` is stripped,
  lowercased and matched against `^(\d+)\s*[Xx×]\s*(\d+)$`. When the match fails, or either
  number is 30 or less, the result is the default `(1024, 1024)`. Module `SizeParser`.
- **Slugs (`slugify`).** A prompt becomes a short file-name fragment: it is stripped and cut
  to 40 characters. Each run of characters other than ASCII letters, digits, `_`, `-` and
  U+4E00–U+9FA5 becomes `_`, doubled `_` collapse, and edge `_` are stripped. If nothing is
  left, the slug is `image`. Module `Slug`.
- **The job file (`load_prompts`).** Lines are stripped. Blank lines and `#` comments are
  skipped. A line containing `||` is cut at its first `||`: the left side is the size token
  and the right side, stripped, is the prompt. A line without `||` is a prompt at the
  default size. A line whose prompt ends up empty is skipped. A missing file gives an empty
  list. Module `JobFile`. There, `LoadPrompts` is the loop with its `continue`s, and it is
  proved equal to the function `Requests`.
- **The decisions inside `main`.** Module `Session` covers:
  - the quit test: strip, lowercase, then check against `q`, `quit` and `exit`;
  - skipping a round whose job list is empty;
  - image file names, `<ts>_<W>x<H>_<slug>_<n>.png` with `n` counted from 1.

Module `PyText` models the Python string builtins the script relies on:
- `str.strip()` and `str.strip("_")`. The whitespace is exactly what `str.isspace()`
  accepts, which is also what `\s` matches in a `str` pattern.
- `str.lower()`, on ASCII letters.
- ASCII digits, `int()` on a digit run, and `str()` of an integer.

`Options` holds the `Option` type.

The file system and the clock are inputs:
- The job file is an `Option<seq<string>>`: `None` if the file does not exist, otherwise its
  lines.
- The timestamp is a string parameter.

The start-up banner (`zimage_loop_from_file.py:110-111`) tells users to write
`prompt || 1024x1024`. The parser and its docstring expect the size on the left
(`zimage_loop_from_file.py:55-57, 74-78`). The model follows the parser.
`JobFile.BannerOrderSwapsFields` proves what happens to a line written as the banner shows,
such as `A cute shiba inu astronaut || 768x1024`:
- it is accepted;
- its prompt is the size text, `768x1024`;
- its size is the default, because the prompt text is not a size token.

## Model

| member | source | states |
|---|---|---|
| PyText.Strip | zimage_loop_from_file.py:67 | `strip()` leaves no whitespace at either end and never lengthens the text |
| PyText.SpaceIsNotText | zimage_loop_from_file.py:27 | the whitespace `strip()` removes (Python's `isspace()` set, `PyText.IsSpace`) holds no digit, no ASCII letter and none of `_`, `#`, `\|`, `-` |
| PyText.StripChars | zimage_loop_from_file.py:33 | `strip("_")` (and `strip()`) leaves no character of the stripped set at either end and never lengthens the text |
| PyText.SplitLeftUnique | zimage_loop_from_file.py:67 | removing leading characters of a class yields exactly the run of them and the rest, and no other split has those properties |
| PyText.StripOfParts | zimage_loop_from_file.py:67 | stripping `pre + core + post` (padding from the class, core edges outside it) gives exactly `core` |
| PyText.StripPadding | zimage_loop_from_file.py:40 | extra padding from the stripped class does not change the result |
| PyText.StripIdempotent | zimage_loop_from_file.py:76-78 | stripping an already stripped size part again (as `parse_size` does) changes nothing |
| PyText.StripKeepsFirst | zimage_loop_from_file.py:67-70 | a line whose first character is not whitespace keeps that character first after stripping, so the `#` test sees it |
| PyText.Lower | zimage_loop_from_file.py:40 | lowering keeps the length and lowers each character in place |
| PyText.NatToStringRoundTrip | zimage_loop_from_file.py:158 | `int(str(n)) == n` for every natural number |
| PyText.DecimalValue | zimage_loop_from_file.py:44-45 | `int()` of a run of `k` digits is below `10^k` |
| PyText.NatToString | zimage_loop_from_file.py:158 | `str(n)` is a non-empty digit run without a leading zero unless it is `0` |
| PyText.IntToString | zimage_loop_from_file.py:158 | `str(i)` is non-empty and made of digits and `-` |
| PyText.DecimalValueRoundTrip | zimage_loop_from_file.py:44-45 | `str(int(s)) == s` for every digit run without a leading zero |
| PyText.NatToStringInjective | zimage_loop_from_file.py:158 | different image numbers are printed differently |
| SizeParser.MatchSize | zimage_loop_from_file.py:41 | a successful match splits the text into digits, whitespace, one of X/x/×, whitespace, digits, which put back together give the text |
| SizeParser.MatchSizeComplete | zimage_loop_from_file.py:41 | every text of that shape is matched, with exactly the split it was built from |
| SizeParser.ParseSize | zimage_loop_from_file.py:35-49 | both components of every result exceed 30 |
| SizeParser.ParseSizeAccepts | zimage_loop_from_file.py:40-49 | a token whose stripped, lowercased form has that shape, with both numbers above 30, yields those numbers, width first |
| SizeParser.ParseSizeTooSmall | zimage_loop_from_file.py:46-48 | a token of that shape with a number at or below 30 yields (1024, 1024) |
| SizeParser.ParseSizeMismatch | zimage_loop_from_file.py:41-43 | a token not of that shape yields (1024, 1024) |
| SizeParser.ParseSizeOrigin | zimage_loop_from_file.py:40-49 | every result is the default or the numbers of a reading of the token that has both above 30 |
| SizeParser.ParseSizeIgnoresPadding | zimage_loop_from_file.py:40 | whitespace around the token does not change the result |
| SizeParser.ParseSizeNonDigitStart | zimage_loop_from_file.py:41-43 | a token whose first visible character is not a digit yields the default |
| SizeParser.ParseSizeTrailingSpace | zimage_loop_from_file.py:40 | a trailing space does not change the result |
| SizeParser.ScenarioExplicitSize | zimage_loop_from_file.py:37 | `1024x1344` is read as width 1024, height 1344 |
| Slug.PyPrefix | zimage_loop_from_file.py:29 | `text[:n]` is a prefix of the text, at most `n` long when `n` is not negative |
| Slug.SlugSource | zimage_loop_from_file.py:27-29 | the stripped, cut text is at most `max_len` long and never longer than the input |
| Slug.ReplaceDisallowed | zimage_loop_from_file.py:31 | after substitution only slug characters remain, the text is no longer, the letters/digits/`-`/Han characters are unchanged in order, and clean text is left as it is; that each run becomes one `_` is `Slug.ReplaceRun` |
| Slug.CollapseUnderscores | zimage_loop_from_file.py:32 | after collapsing no `__` remains, the first character and the kept characters are unchanged, the text is no longer, and text without `__` is left as it is; that each run becomes one `_` is `Slug.CollapseRun` |
| Slug.ReplaceRun | zimage_loop_from_file.py:31 | after slug characters, a maximal run of disallowed characters of any length becomes exactly one `_`, and the substitution goes on after it |
| Slug.ReplaceKeepsPrefix | zimage_loop_from_file.py:31 | leading slug characters are copied as they are |
| Slug.ReplaceRunOfDisallowed | zimage_loop_from_file.py:31 | a disallowed run at the start, ending before a slug character or the end, becomes one `_` |
| Slug.CollapseRun | zimage_loop_from_file.py:32 | after characters other than `_`, a maximal run of `_` of any length becomes exactly one `_`, and collapsing goes on after it |
| Slug.CollapseKeepsPrefix | zimage_loop_from_file.py:32 | leading characters other than `_` are copied as they are |
| Slug.CollapseRunOfUnderscores | zimage_loop_from_file.py:32 | a `_` run at the start, ending before another character or the end, becomes one `_` |
| Slug.CleanedShape | zimage_loop_from_file.py:33 | stripping `_` keeps the class and the kept characters, and gives the empty string exactly when nothing is kept |
| Slug.Slugify | zimage_loop_from_file.py:23-33 | the slug is non-empty, made only of slug characters, has no `__`, and neither starts nor ends with `_`; with nothing kept it is `image`; otherwise it holds exactly the kept characters of the cut text, in order, and is no longer than that text or the input; it is at most `max_len` long or is `image` |
| Slug.CleanedEmptyExactly | zimage_loop_from_file.py:33 | the cleaned text is empty, so that `image` is used, exactly when the cut text holds no letter, digit, `-` or Han character |
| Slug.SlugifyIdempotent | zimage_loop_from_file.py:23-33 | slugging a slug gives it back whenever `max_len` is at least 5 |
| JobFile.FindDelimiter | zimage_loop_from_file.py:74-75 | the reported position holds `\|\|` and no earlier position does; `None` only when no position does |
| JobFile.FirstDelimiter | zimage_loop_from_file.py:74-75 | the first `\|\|` is the one the split uses |
| JobFile.LineFields | zimage_loop_from_file.py:74-82 | the size taken from a line always exceeds 30 in both components |
| JobFile.RequestOf | zimage_loop_from_file.py:66-91 | every request a line yields has a non-empty prompt without surrounding whitespace and a size above 30 |
| JobFile.Requests | zimage_loop_from_file.py:64-93 | a file gives at most one request per line |
| JobFile.LoadPrompts | zimage_loop_from_file.py:51-93 | the loop returns `[]` for a missing file and otherwise exactly the requests of the lines, in file order |
| JobFile.Loaded | zimage_loop_from_file.py:60-62 | a missing file gives no request, an existing one at most one per line |
| JobFile.RequestsValid | zimage_loop_from_file.py:84-91 | every loaded request has a non-empty stripped prompt and a size above 30 |
| JobFile.RequestsConcat | zimage_loop_from_file.py:66-91 | the requests of two stretches of lines are those of the first followed by those of the second |
| JobFile.SkippedLineIgnored | zimage_loop_from_file.py:67-85 | deleting a line that yields nothing leaves the job list unchanged |
| JobFile.AcceptedLineKept | zimage_loop_from_file.py:87-91 | an accepted line puts its request exactly between those of the lines before and after it, with no dedup |
| JobFile.AllLinesAccepted | zimage_loop_from_file.py:64-93 | a file whose lines each yield a request gives exactly those requests, one per line, in order |
| JobFile.NoLinesAccepted | zimage_loop_from_file.py:64-93 | a file of blank lines, comments and empty prompts gives no request |
| JobFile.LinePaddingIgnored | zimage_loop_from_file.py:67 | whitespace around a line does not change what it yields |
| JobFile.BlankLineSkipped | zimage_loop_from_file.py:67-69 | a blank line yields nothing |
| JobFile.CommentLineSkipped | zimage_loop_from_file.py:70-71 | a line whose first visible character is `#` yields nothing, whatever follows, `\|\|` included |
| JobFile.DelimitedLine | zimage_loop_from_file.py:74-85 | `size \|\| prompt` yields the stripped prompt at `parse_size(size)`, or nothing when the prompt is blank; the prompt may itself contain `\|\|` |
| JobFile.BareDelimiterSkipped | zimage_loop_from_file.py:74-85 | a line holding only `\|\|` and whitespace yields nothing |
| JobFile.PlainLine | zimage_loop_from_file.py:79-82 | a line without `\|\|` becomes one request, the whole stripped line at (1024, 1024) |
| JobFile.SizedLine | zimage_loop_from_file.py:74-78 | a valid size token on the left sets the request's width and height |
| JobFile.BrokenSizeLine | zimage_loop_from_file.py:74-78 | a rejected size token keeps the request at (1024, 1024) |
| JobFile.BannerOrderSwapsFields | zimage_loop_from_file.py:110-111 | a line written as the banner shows, `prompt \|\| size`, is read with the size text as the prompt, at the default size |
| Session.QuitExactly | zimage_loop_from_file.py:118-121 | the session ends exactly when the input is `q`, `quit` or `exit`, in any letter case and padded with any whitespace |
| Session.IsQuit | zimage_loop_from_file.py:118-119 | a quitting input has one or four visible characters |
| Session.BlankInputProceeds | zimage_loop_from_file.py:118-119 | an empty or all-whitespace input starts a round |
| Session.NextRound | zimage_loop_from_file.py:117-126 | a pass quits exactly on a quit word; otherwise it skips exactly when the job list is empty, and generates the job list when not |
| Session.QuitIgnoresFile | zimage_loop_from_file.py:118-123 | quitting does not depend on the job file |
| Session.MissingFileSkipsRound | zimage_loop_from_file.py:123-126 | a missing job file skips the round without ending the session |
| Session.NothingAcceptedSkipsRound | zimage_loop_from_file.py:123-126 | a file of blank lines, comments and empty prompts skips the round |
| Session.GeneratedRequestsValid | zimage_loop_from_file.py:123-136 | every request a round generates is valid |
| Session.FileNamesDistinct | zimage_loop_from_file.py:157-158 | within one request, two image names are equal exactly when the image indexes are |
| Session.ImageFileName | zimage_loop_from_file.py:158 | the name is longer than the timestamp and ends in `.png` |
| Session.RequestFileNames | zimage_loop_from_file.py:157-161 | a request's `count` images get `count` names, image `i` getting the name for index `i`, all pairwise distinct |
| Session.NameStartsWithStamp | zimage_loop_from_file.py:154-158 | every image name starts with the request's timestamp |
| Session.StampsSeparateNames | zimage_loop_from_file.py:154-158 | requests with different timestamps of the same width never share a name |
| Session.FileNameStaysInDirectory | zimage_loop_from_file.py:158-159 | a name built from a timestamp without `/` has no `/`, so the joined path stays in the output directory |
| Session.SlugOfLetterAndMark | zimage_loop_from_file.py:155 | a letter followed by one mark such as `!` slugs to the letter alone |
| Session.SameStampCanCollide | zimage_loop_from_file.py:154-158 | names are not unique across requests: different prompts such as `a!` and `a?`, at one size and timestamp, get the same name |

## Left out

- Model loading, `pipe(...)`, `torch.Generator` and the seed: foreign GPU calls on floating point data that the model cannot see.
- Timing (`time.time()` and the elapsed-seconds report): wall-clock and floating point.
- Console output (the banner, warnings, progress lines), `input()`, `os.makedirs`, `os.path.exists`, `open`, UTF-8 decoding and `image.save`: I/O. The job file is an optional sequence of lines, Python's `for line in f` splitting is taken as given, and a line may keep its terminator, which stripping removes.
- The `datetime.now().strftime("%Y%m%d_%H%M%S")` timestamp is a string parameter, so the clock and its format are not modelled.
- The `while True` loop and the nested `for` loops of `main` are not modelled as loops. It is an unbounded interactive loop around I/O, so the model states one pass (`Session.NextRound`) and the names of one request's images (`Session.RequestFileNames`).
- `prompts.py` is not part of this model. It holds only static instruction text and templates.
- PyText.IsDigit: `\d` and `int()` are restricted to ASCII digits. Python also accepts other Unicode decimal digits, so a token such as `１０２４x１０２４` (fullwidth digits) is rejected here.
- Slug.IsWordChar: `\w` is restricted to ASCII letters, digits and `_`. Python's `\w` also keeps other Unicode letters and digits (accented Latin letters, for example), which this model replaces with `_`.
- PyText.Lower: only ASCII letters are lowered, one character for one. Python's `lower()` also lowers non-ASCII letters; U+212A (Kelvin sign) becomes `k`, and U+0130 (capital I with dot above) becomes `i` followed by U+0307 (combining dot above), so Python's lowered text can be longer than its input. The size and quit decisions still agree with Python's. No character lowers to a digit, whitespace, `x` or `×`. The combining dot stays next to its `i`, so no lowered command becomes `q`, `quit` or `exit` unless it already was one in ASCII letters. Slugs are built from the original prompt, not from lowered text.
- SizeParser.ParseSize: CPython's `int()` raises `ValueError` on a digit string longer than 4300 digits (the default limit since Python 3.11 and in the 3.7–3.10 security releases). `parse_size` does not catch it, so such a size token would end the program; the model's `DecimalValue` is unbounded and always yields a size.
- Strings are sequences of code points. Surrogates and normalisation are not modelled.
