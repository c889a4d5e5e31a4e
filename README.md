# phrack2ebook, modelled in Dafny

phrack2ebook downloads an issue of Phrack, puts its plain-text articles into
one HTML document, and hands that document to calibre's `ebook-convert`.
This project models the parts of the script that compute something rather
than perform I/O. It proves what those parts promise.

- **Chapter order** (`Chapters`, built on `PyInt`, `Paths` and `Sorting`).
  The article files are sorted by `int()` of their file name without
  directory and extension. `PyInt` models Python's `int()` on a `str`:
  white space around the literal, a sign, and underscores between digits.
  `Paths` models `os.path.basename` and the root half of
  `os.path.splitext`. `Sorting` is Python's stable `sorted` with a key.
  A stem that `int()` rejects raises before anything is written. The model
  returns that as an error.
- **Escaping** (`HtmlEscape`): `html.escape` with `quote=True`, written as
  the library writes it, a chain of five replacements. An unescaper is the
  partner it is proved against.
- **Paragraphs** (`TextLines`, `Paragraphs`): `str.split('\n')`,
  `str.join`, and the `<p>` wrapping of every line of an article.
- **Document** (`Document`): `txt_to_html`. The method `TxtToHtml` builds
  the list of lines with a loop, as the source does. Its result is the text
  the source writes to the output file.
- **Latest issue** (`Issues`): `find_latest_issue`. It runs
  `re.findall(r'phrack(\d+).tar.gz', listing).pop()` on the text of the
  archive listing. A scanner for this one pattern reproduces how the
  regular expression engine behaves:
  - `\d+` is greedy and backtracks;
  - each unescaped `.` matches any character but a line break;
  - `findall` resumes after the end of each match;
  - `pop()` on an empty list raises `IndexError`.
  The listing is a parameter; the HTTP request is not modelled.
- **Converter command line** (`Converter`): the argument vector that
  `html_to_mobi` passes to `ebook-convert`, read back option by option.

`find_latest_issue` returns the capture of the **last** match in the text,
not the largest issue number. For a listing that holds `phrack70.tar.gz`
and then `phrack69.tar.gz`, the code returns `69`.
`Issues.LastNotLargest` proves this. A
listing that is not in ascending order therefore selects an older issue.
The model records this as the behaviour of the code, not as a corrected
one.

## Model

| member | source | states |
|---|---|---|
| PyInt.ParseInt | phrack2ebook.py:29 | `int(s)`, with None for the ValueError; no ensures of its own: ParseDecimal, ParseZeroPadded, ParseNegative, ParseGrouped, ParseRejects and SeparatorNotSkipped give its meaning |
| PyInt.ParseLiteral | phrack2ebook.py:29 | `int()` on the literal once white space is stripped; no ensures of its own: ParseTrimmed, DigitsAreGroups, NegativeLiteral and LiteralRejects give its meaning |
| PyInt.TrimStartSkipsSpace | phrack2ebook.py:29 | `int()` skips the leading white space (space, `\t` to `\r`, and non-ASCII white space) and keeps the rest unchanged |
| PyInt.TrimEndSkipsSpace | phrack2ebook.py:29 | `int()` skips the trailing white space and keeps the rest unchanged |
| PyInt.TrimUnspaced | phrack2ebook.py:29 | a literal that neither starts nor ends with white space is left whole |
| PyInt.StrippedIndex | phrack2ebook.py:29 | every character that is not white space survives the stripping, at a known position |
| PyInt.DropUnderscores | phrack2ebook.py:29 | removing the grouping underscores never lengthens the literal |
| PyInt.DropUnderscoresDigits | phrack2ebook.py:29 | removing the underscores from digits and underscores leaves only digits |
| PyInt.DropUnderscoresNone | phrack2ebook.py:29 | a literal without underscores is left unchanged |
| PyInt.DropUnderscoresAppend | phrack2ebook.py:29 | removing underscores from two pieces is the same as removing them from each piece and joining |
| PyInt.GroupedIsGroups | phrack2ebook.py:29 | two digit runs joined by one underscore form a valid grouped literal |
| PyInt.GroupedDrop | phrack2ebook.py:29 | removing the underscore from `x_y` gives the digits `xy` |
| PyInt.ParseGrouped | phrack2ebook.py:29 | `int(x + "_" + y) == int(x + y)` for non-empty digit runs, e.g. `int("1_000") == 1000` |
| PyInt.SeparatorNotSkipped | phrack2ebook.py:29 | `int("\x1c7")` raises: the ASCII separator U+001C is not white space `int()` skips |
| PyInt.Decimal | phrack2ebook.py:45 | `str(i)` of a chapter number is a non-empty run of digits worth `i`, with no leading zero unless `i` is 0 |
| PyInt.LeadingZerosValue | phrack2ebook.py:29 | zeros in front of a digit run do not change its value |
| PyInt.ParseTrimmed | phrack2ebook.py:29 | `int()` of a text without surrounding white space reads the whole text |
| PyInt.DigitsAreGroups | phrack2ebook.py:29 | a run of digits is a valid literal body whose value is the run's value |
| PyInt.NegativeLiteral | phrack2ebook.py:29 | a minus sign in front of a literal body negates its value |
| PyInt.ParseDigits | phrack2ebook.py:29 | any run of ASCII digits, padded or not, parses to its value |
| PyInt.ParseDecimal | phrack2ebook.py:29 | `int(str(n)) == n` |
| PyInt.ParseZeroPadded | phrack2ebook.py:29 | `int("0…0" + str(n)) == n`, so `01` and `1` have the same key |
| PyInt.ParseNegative | phrack2ebook.py:29 | `int("-" + str(n)) == -n` |
| PyInt.ParseRejects | phrack2ebook.py:29 | a character that is not white space, an ASCII digit, a sign or an underscore makes `int()` raise |
| PyInt.LiteralRejects | phrack2ebook.py:29 | the same for a literal already stripped of white space: a character that is not an ASCII digit, a sign or an underscore makes it raise |
| Paths.LastIndexOf | phrack2ebook.py:29 | the position of the last occurrence of a character, or none when it is absent |
| Paths.Basename | phrack2ebook.py:29 | `os.path.basename` is the suffix after the last `/` and holds no `/` |
| Paths.SplitExtRoot | phrack2ebook.py:29 | the `splitext` root is the text before the last `.`, except that a name whose dots before the last `.` are all it has keeps the whole name |
| Paths.BasenameOfChild | phrack2ebook.py:28-29 | the basename of `dir/name` is `name` |
| Paths.RootOfExtended | phrack2ebook.py:29 | `splitext` removes an appended `.txt` from a name that is not all dots |
| Sorting.FirstFailing | phrack2ebook.py:28-29 | `sorted` computes every key first, so the first file in listing order whose key fails is the one that raises; there is none exactly when every key succeeds |
| Sorting.Insert | phrack2ebook.py:28 | inserting into a key-sorted list keeps it key-sorted and adds exactly the one element |
| Sorting.StableSort | phrack2ebook.py:28 | the result of `sorted` is in ascending key order and is a permutation of the input |
| Sorting.WithKeyMembers | phrack2ebook.py:28 | the elements of one key are exactly the input elements with that key |
| Sorting.InsertWithKey | phrack2ebook.py:28 | insertion puts the new element before the elements of equal key |
| Sorting.StableSortWithKey | phrack2ebook.py:28 | `sorted` is stable: the elements of each key keep their input order |
| Sorting.SortedCons | phrack2ebook.py:28 | an element no larger than the head of a sorted list can go in front of it |
| Sorting.WithKeyCons | phrack2ebook.py:28 | the elements of one key of a list with a given first element |
| Sorting.SameHead | phrack2ebook.py:28 | two key-sorted lists that agree on the elements of their first keys start with the same element |
| Sorting.TailAgrees | phrack2ebook.py:28 | removing an equal first element keeps the two lists in agreement on a key |
| Sorting.SortedIsUnique | phrack2ebook.py:28 | two key-sorted lists that agree on the order within every key are equal |
| Sorting.SortDependsOnlyOnTies | phrack2ebook.py:28 | two inputs that agree on the order within every key sort to the same list |
| Sorting.WithKeyOfDistinct | phrack2ebook.py:28 | with distinct keys every key selects at most one element |
| Sorting.ContainedWithKey | phrack2ebook.py:28 | a permutation holds the same elements of every key |
| Sorting.SameWithKey | phrack2ebook.py:28 | with distinct keys, a permutation selects the same element for every key |
| Sorting.SortIgnoresPermutation | phrack2ebook.py:28 | with distinct keys, any permutation of the input sorts to the same list |
| Sorting.TiesKeepInputOrder | phrack2ebook.py:28 | two elements of equal key stay in input order |
| Chapters.Stem | phrack2ebook.py:29 | `os.path.splitext(os.path.basename(x))[0]`; no ensures of its own: StemOfNumberedFile gives its meaning, on top of Paths.Basename and Paths.SplitExtRoot |
| Chapters.KeyOf | phrack2ebook.py:29 | the sort key `int(stem)`, or the ValueError naming the stem; no ensures of its own: KeyOfNumberedFile and NonNumericStemFails give its meaning |
| Chapters.ChapterOrder | phrack2ebook.py:28-29 | the ordering fails exactly when some stem is not an integer literal, and then with the stem of the first such file in listing order; otherwise it is a permutation of the files in ascending order of `int(stem)` |
| Chapters.ChapterOrderIsStable | phrack2ebook.py:28-29 | files whose stems have the same value keep their listing order |
| Chapters.OrderDependsOnlyOnTies | phrack2ebook.py:28-29 | the chapter order depends on the listing order only through files with equal values |
| Chapters.OrderIgnoresListingOrder | phrack2ebook.py:28-29 | files with distinct numbers come out in the same order however the directory lists them |
| Chapters.TiesKeepListingOrder | phrack2ebook.py:28-29 | two files of equal value, such as `01.txt` and `1.txt`, stay in listing order |
| Chapters.KeyOfNumberedFile | phrack2ebook.py:28-29 | `dir/0…0N.txt` sorts by the number N |
| Chapters.StemOfNumberedFile | phrack2ebook.py:29 | the stem of `dir/0…0N.txt` is `0…0N` |
| Chapters.NonNumericStemFails | phrack2ebook.py:29 | one stem with a character other than white space, an ASCII digit, a sign or an underscore makes the whole ordering fail |
| TextLines.FirstIndex | phrack2ebook.py:43 | the first position of a character, which is absent before it, or none when it is absent everywhere |
| TextLines.Split | phrack2ebook.py:43 | `str.split` always gives at least one piece |
| TextLines.SplitCount | phrack2ebook.py:43 | k separators give k + 1 pieces |
| TextLines.SplitPiecesLack | phrack2ebook.py:43 | no piece holds the separator or a character absent from the text |
| TextLines.Join | phrack2ebook.py:43 | `sep.join(xs)`; no ensures of its own: JoinSplit and SplitJoin give its meaning, as the inverse of Split |
| TextLines.JoinSplit | phrack2ebook.py:43 | joining the pieces with the separator gives the text back |
| TextLines.FirstIndexAfter | phrack2ebook.py:43 | in a text that lacks a character up to a point where it occurs, the first occurrence is at that point |
| TextLines.SplitCons | phrack2ebook.py:43 | a character other than the separator joins the first piece of what follows it |
| TextLines.SplitPrefix | phrack2ebook.py:43 | text without a separator glues onto the first piece of what follows it |
| TextLines.SplitJoin | phrack2ebook.py:53 | splitting joined lines gives the lines back when none holds the separator |
| TextLines.CountAppend | phrack2ebook.py:43 | occurrences in a concatenation add up |
| TextLines.CountAbsent | phrack2ebook.py:43 | a character absent from a text occurs 0 times |
| HtmlEscape.Replace | phrack2ebook.py:42 | `str.replace` of one character, as `html.escape` uses it; no ensures of its own: ReplaceAppend, ReplaceAbsent and ReplaceOne give its meaning |
| HtmlEscape.Escape | phrack2ebook.py:42 | `html.escape(s)` as the library's five replacements; no ensures of its own: EscapeIsPerCharacter, UnescapeEscape and EscapedIsSafe give its meaning |
| HtmlEscape.ReplaceAppend | phrack2ebook.py:42 | `str.replace` of a character distributes over concatenation |
| HtmlEscape.ReplaceAbsent | phrack2ebook.py:42 | replacing a character that does not occur changes nothing |
| HtmlEscape.ReplaceOne | phrack2ebook.py:42 | a one-character text is replaced by the replacement or left alone |
| HtmlEscape.EscapeOneChar | phrack2ebook.py:42 | on one character the five replacements give that character's entity, or the character itself |
| HtmlEscape.EscapeAppend | phrack2ebook.py:42 | escaping distributes over concatenation |
| HtmlEscape.EscapeIsPerCharacter | phrack2ebook.py:42 | replacing `&` first makes the chain equal to escaping each character on its own, so no entity is escaped twice |
| HtmlEscape.UnescapeMarkup | phrack2ebook.py:42 | the unescaper reads each of the five entities back as its character |
| HtmlEscape.UnescapePlain | phrack2ebook.py:42 | a character that is not `&` is read back as itself |
| HtmlEscape.UnescapeEntity | phrack2ebook.py:42 | the unescaper reads one escaped character back |
| HtmlEscape.UnescapeEscape | phrack2ebook.py:42 | unescaping the escaped article gives the article back exactly |
| HtmlEscape.UnescapeEscapeEach | phrack2ebook.py:42 | the unescaper inverts escaping character by character |
| HtmlEscape.SafeAppend | phrack2ebook.py:42 | the two safety properties survive concatenation |
| HtmlEscape.EscapedIsSafe | phrack2ebook.py:42 | escaped text holds no raw `<`, `>`, `"` or `'`, and each `&` in it begins one of the five entities |
| HtmlEscape.EscapeEachIsSafe | phrack2ebook.py:42 | the same safety for escaping character by character |
| HtmlEscape.EscapeKeepsNewlines | phrack2ebook.py:42 | escaping keeps the number of line breaks |
| HtmlEscape.EscapeEachKeepsNewlines | phrack2ebook.py:42 | the same count for escaping character by character |
| Paragraphs.WrapParagraphs | phrack2ebook.py:43 | the paragraph markup of one article; no ensures of its own: JoinedIsParagraphs, WrapParagraphsLines and WrapEmpty give its meaning |
| Paragraphs.JoinedIsParagraphs | phrack2ebook.py:43 | `'<p>' + '</p><p>'.join(lines) + '</p>'` puts every line in a `<p>` element of its own, in order |
| Paragraphs.ParseStep | phrack2ebook.py:43 | one `<p>` element whose content holds no `<` is read back, then the rest |
| Paragraphs.ParseParagraphsInverse | phrack2ebook.py:43 | the `<p>` elements are read back as the original lines when no line holds a `<` |
| Paragraphs.WrapParagraphsLines | phrack2ebook.py:43 | a text with k line breaks and no `<` becomes k + 1 paragraphs, one per line in order, whose lines rejoined give the text |
| Paragraphs.ParagraphsLackNewline | phrack2ebook.py:43 | paragraphs of lines without a line break hold none |
| Paragraphs.WrappedLacksNewline | phrack2ebook.py:43 | the wrapped content holds no `'\n'` |
| Paragraphs.WrapEmpty | phrack2ebook.py:43 | an empty article becomes exactly `<p></p>` |
| Document.HeadLines | phrack2ebook.py:31-38 | the six opening lines, title unescaped; no ensures of its own: DocumentShape and HeadLinesHaveNoH1 give its meaning |
| Document.Heading | phrack2ebook.py:45 | `f"<h1>Chapter {i}</h1>"`; no ensures of its own: H1LinesOfBlock and DocumentHeadings give its meaning |
| Document.ArticleBody | phrack2ebook.py:41-43 | an article escaped and wrapped in paragraphs; no ensures of its own: ArticleRecoverable gives its meaning |
| Document.ChapterBlock | phrack2ebook.py:44-49 | the four lines of chapter i; no ensures of its own: H1LinesOfBlock and BlockLacksNewline give its meaning |
| Document.ChapterLines | phrack2ebook.py:40-49 | the chapter blocks, numbered from 1; no ensures of its own: ChapterLinesStep and ChapterLinesShape give its meaning |
| Document.DocumentLines | phrack2ebook.py:31-51 | every line of the document; no ensures of its own: AssembleLines, DocumentShape and DocumentHeadings give its meaning |
| Document.TxtToHtml | phrack2ebook.py:27-53 | the ordering error when the ordering fails, and nothing is written; otherwise the text written is the document's lines for the ordered articles, joined by `'\n'` |
| Document.AssembleLines | phrack2ebook.py:31-51 | the loop leaves the head lines, each article's four lines in chapter order, and the closing line |
| Document.ChapterLinesStep | phrack2ebook.py:40-49 | one more iteration adds the next article's block, numbered one past the previous |
| Document.ChapterLinesShape | phrack2ebook.py:40-49 | four lines per article; block j is chapter j + 1 of article j |
| Document.ChapterInDocument | phrack2ebook.py:31-51 | chapter j of the document is block j of the chapter lines, after the six head lines |
| Document.DocumentShape | phrack2ebook.py:31-51 | 7 + 4N lines: the six head lines with the title inserted verbatim, then for the j-th article `<h1>Chapter j</h1>`, `<pre>`, its body and `</pre>`, then `</body></html>` |
| Document.H1LinesAppend | phrack2ebook.py:40-49 | the lines starting with `<h1>` of a concatenation are those of its parts |
| Document.H1LinesOfBlock | phrack2ebook.py:44-49 | a chapter block has exactly one line starting with `<h1>`, its heading |
| Document.H1LinesOfChapters | phrack2ebook.py:40-49 | the chapter blocks hold the headings Chapter 1 to Chapter N in order and no other line starting with `<h1>` |
| Document.NotH1 | phrack2ebook.py:31-38 | a line whose second or third character differs from `<h1>` does not start with `<h1>` |
| Document.HeadLinesHaveNoH1 | phrack2ebook.py:31-38 | no head line starts with `<h1>`, for any title |
| Document.TailHasNoH1 | phrack2ebook.py:51 | the closing line does not start with `<h1>` |
| Document.DocumentHeadings | phrack2ebook.py:40-51 | the lines of the document that start with `<h1>` are exactly `Chapter 1` to `Chapter N` in order |
| Document.BlockLacksNewline | phrack2ebook.py:44-49 | no line of a chapter block holds a line break |
| Document.ChapterLinesLackNewline | phrack2ebook.py:40-49 | no chapter line holds a line break |
| Document.WrittenLines | phrack2ebook.py:53 | with a one-line title, splitting the written text on `'\n'` gives back exactly the document's lines, so it holds 6 + 4N line breaks |
| Document.ArticleRecoverable | phrack2ebook.py:42-47 | an article's body line is one `<p>` per line of the article; k line breaks give k + 1 paragraphs; unescaping the rejoined paragraphs gives the article back |
| Issues.MatchAt | phrack2ebook.py:11 | the match of `phrack(\d+).tar.gz` starting at a position; no ensures of its own: MatchAtIsGreedy gives its meaning |
| Issues.FindAll | phrack2ebook.py:14 | `findall` as (start, digit count) pairs; no ensures of its own: FindAllBounds, NoMatchesInside, FindAllEmpty and FindAllLast give its meaning |
| Issues.LatestIssue | phrack2ebook.py:10-14 | `find_latest_issue` on the listing text; no ensures of its own: LatestIssueIsLastMatch gives its meaning |
| Issues.DigitRun | phrack2ebook.py:11 | `\d+` first takes the longest run of digits |
| Issues.Backtrack | phrack2ebook.py:11 | backtracking settles on the longest digit count that leaves `.tar.gz` to match, or fails when none does |
| Issues.MatchAtIsGreedy | phrack2ebook.py:11 | a match at a position captures the most digits the pattern allows there; no match means the pattern cannot match there at all |
| Issues.FindAllBounds | phrack2ebook.py:14 | every result of `findall` is a match inside the text |
| Issues.NoMatchInside | phrack2ebook.py:11 | no `phrack` starts inside a match |
| Issues.NoMatchesInside | phrack2ebook.py:11-14 | no match starts inside another, so skipping to the end of a match loses none |
| Issues.NoMatchFrom | phrack2ebook.py:14 | when `findall` finds nothing from a position on, the pattern matches nowhere from there on |
| Issues.FindAllEmpty | phrack2ebook.py:14 | `findall` finds nothing exactly when the pattern matches nowhere |
| Issues.FindAllLast | phrack2ebook.py:14 | the last result of `findall` is a match, and no match starts after it |
| Issues.FindAllLastFromMatch | phrack2ebook.py:14 | from a position where a match starts, the last result of `findall` is a match and none starts after it |
| Issues.NothingAfter | phrack2ebook.py:14 | a match after which `findall` finds nothing is the last match in the text |
| Issues.LatestIssueIsLastMatch | phrack2ebook.py:11-14 | the selection fails exactly when the pattern matches nowhere; otherwise it returns the digits of the match that starts last in the text |
| Issues.LastMatchDecides | phrack2ebook.py:14 | the match that starts last fixes the result, whatever matched before it |
| Issues.ArchiveNameMatches | phrack2ebook.py:11 | `phrackK.tar.gz` in a listing matches with the digits of K as its capture |
| Issues.LastListedIsSelected | phrack2ebook.py:11-14 | a listing whose last archive name is `phrackK.tar.gz` selects K, even when larger issues are listed before it |
| Issues.LastNotLargest | phrack2ebook.py:14 | `phrack70.tar.gz phrack69.tar.gz` selects `69`, not `70` |
| Converter.Argv | phrack2ebook.py:55-67 | the argument vector `html_to_mobi` runs; no ensures of its own: ArgvLayout, ArgvIsFlattenedSettings and ConverterSettings give its meaning |
| Converter.Lookup | phrack2ebook.py:56-67 | an option is found exactly when some pair carries its flag, and then with that pair's value |
| Converter.PairsFlatten | phrack2ebook.py:60-66 | reading option-value pairs undoes writing them out |
| Converter.ArgvIsFlattenedSettings | phrack2ebook.py:56-67 | the command line is `ebook-convert`, the input and output paths, then the seven settings written out pair by pair; with PairsFlatten, reading its options back gives exactly those settings |
| Converter.FlattenIndex | phrack2ebook.py:60-66 | writing out n pairs gives 2n words, option i at position 2i and its value at 2i + 1 |
| Converter.ArgvLayout | phrack2ebook.py:56-67 | 17 arguments: `ebook-convert`, the input, the output, then the seven settings as flag-value pairs in source order |
| Converter.PairsIndex | phrack2ebook.py:60-66 | pair i is made of arguments 2i and 2i + 1 |
| Converter.LookupAt | phrack2ebook.py:60-66 | an option is read from the first pair that carries its flag |
| Converter.SettingsBook | phrack2ebook.py:60-61 | the title and the author are passed verbatim, whatever strings they are |
| Converter.SettingsLayout | phrack2ebook.py:62-64 | `//h1` marks the chapters and the page breaks, and text is left-justified |
| Converter.SettingsFonts | phrack2ebook.py:65-66 | the base font size and every mapped size are 12 |
| Converter.ConverterSettings | phrack2ebook.py:56-67 | read back as the converter reads it, the command converts the input to the output with exactly these settings |
| Converter.DefaultSettings | phrack2ebook.py:55 | without a title and author, the book is "My Book" by "Author Name" |

## Left out

- The HTTP request for the listing (line 12) is not modelled. `Issues.LatestIssue` takes the listing text as a parameter.
- `download_phrack_issue` (lines 16-25) runs `curl`, `tar` and `os.remove`. These are network and external-process effects with no logic to prove.
- `glob`, file reading and file writing (lines 28, 41, 52-53) are not modelled. The directory listing is the `files` parameter and each article's text is in `Article.text`. The written file is the string `TxtToHtml` returns.
- Text-mode `open` translates `\r\n` and `\r` into `\n` (line 41). This is library I/O behaviour; article texts are taken as already read.
- Running `ebook-convert` (line 56) is not modelled. It is a foreign program whose exit status the script never checks. Only its argument vector is modelled.
- `main` (lines 69-97) is left out. It parses arguments with `argparse` and sequences the steps above. Two defects in it are not modelled:
  - line 90 interpolates the builtin `format`, not `args.format`, so the output file never ends in `.mobi`;
  - line 75 treats issue number 0 as "not given" and fetches the latest issue instead.
- PyInt.ParseInt: the model accepts ASCII digits only. Python's `int()` also accepts other Unicode decimal digits.
- Issues.DigitRun: only ASCII digits are matched. The pattern's `\d` also matches other Unicode decimal digits.
- Document.DocumentHeadings: the headings are stated for lines that START with `<h1>`. The title goes into `<title>` unescaped (line 35), so a title holding markup such as `</title><h1>Extra` adds an `<h1>` element inside a head line, which `--chapter //h1` would take as a chapter. The model makes no promise about markup inside the title.
- General regular expressions are not modelled. `Issues` models the single pattern `phrack(\d+).tar.gz` and nothing else.
- `os.path.basename` and `os.path.splitext` are modelled for POSIX paths, with `/` as the only separator.
