# Contact scraper and Hacker News filter, modelled in Dafny

This project models two small Python programs and proves properties of the model.

- `EmailScraper/main.py` reads PDF and Word documents in which each contact sits on one line as
  `name, email, phone`. It keeps the lines whose email matches `EMAIL_REGEX` and whose phone,
  with spaces removed, matches `PHONE_REGEX`. It removes duplicate contacts and writes them to
  a text file, a spreadsheet, a Word table and a PDF.
- `hn_scraper.py.py` keeps the Hacker News title links whose vote text, read as an integer,
  reaches a threshold.

The modules follow the program's structure:

| module | file | what it holds |
|---|---|---|
| `Wrappers` | `wrappers.dfy` | `Option` |
| `Strings` | `strings.dfy` | the Python string built-ins the core relies on: `strip`, `split`, `join`, `splitlines`, `replace(pat, "")` |
| `Numbers` | `numbers.dfy` | `int()` on decimal text, with `str()` as its reference inverse |
| `Patterns` | `patterns.dfy` | the two regular expressions as recognisers of a full match |
| `Seqs` | `seqs.dfy` | generic sequence helpers: map, keeping the present options, flattening |
| `Contacts` | `contacts.dfy` | `extract_contacts` |
| `Dedup` | `dedup.dfy` | `list(set(...))` |
| `Extraction` | `extraction.dfy` | PDF and Word text assembly, the suffix dispatch, the loop over input files |
| `Writers` | `writers.dfy` | `save_to_text`, `save_to_excel`, `save_to_word`, `save_to_pdf` |
| `Scraper` | `scraper.dfy` | the main block of `main.py` |
| `HackerNews` | `hackernews.dfy` | `popular_news` |

The program's loops are Dafny methods. Each method is proved against a specification function.
The examples are `ExtractContacts` against `ContactsOf`, `SaveToPdf` against
`Preamble() + Layout(contacts)` and `PopularNews` against `Popular`. The lemmas then state what
the program promises about those functions.

The regular expressions are written as decompositions, not as a regex engine:

- `EMAIL_REGEX` is a local part, `@`, a domain part, `.` and a lowercase top-level label. Since
  the local part holds no `@` and the label holds no `.`, the only candidate split is at the
  first `@` and the last `.`. `MatchesEmail` tests that split and is proved equivalent to the
  existential decomposition `EmailPattern`.
- `PHONE_REGEX` is a bounded existential over the split points between the optional country
  group, the optional area group and the subscriber digits.

Whitespace, as used by `strip` and by `\s` in `PHONE_REGEX`, is the full set of characters
Python's `str.isspace` accepts. Line boundaries are the full set `str.splitlines` uses, with
`"\r\n"` as one boundary.

## Model

| member | source | states |
|---|---|---|
| Strings.Strip | EmailScraper/main.py:58 | the stripped field has no whitespace at either end |
| Strings.StripOnOneLine | EmailScraper/main.py:58 | stripping adds no line boundary |
| Strings.StripIsSlice | EmailScraper/main.py:58 | `strip` keeps one contiguous slice and removes only whitespace around it |
| Strings.StripIdempotent | EmailScraper/main.py:58 | stripping twice is stripping once |
| Strings.StripPadded | EmailScraper/main.py:58 | a stripped field padded with whitespace on both sides strips back to itself |
| Strings.Repeat | EmailScraper/main.py:69 | `"-" * n`: n characters, each the one repeated (also the 70 dashes of line 105) |
| Strings.Split | EmailScraper/main.py:58 | `split(',')` gives one more piece than there are commas, and no piece holds a comma |
| Strings.SplitOnOneLine | EmailScraper/main.py:58 | no piece of a split holds a line boundary when the string holds none |
| Strings.Join | EmailScraper/main.py:52 | `sep.join(parts)`, the parts with `sep` between neighbours; `JoinSplit` and `SplitJoin` make it the inverse of `split` |
| Strings.JoinSplit | EmailScraper/main.py:58 | joining the pieces with the separator restores the line |
| Strings.SplitJoin | EmailScraper/main.py:58 | splitting a join of separator-free pieces gives the pieces back |
| Strings.SplitLines | EmailScraper/main.py:57 | `splitlines` gives lines without boundaries, no more lines than characters |
| Strings.SplitLinesAppend | EmailScraper/main.py:57 | after a final `"\n"` the lines of the rest are independent of what came before |
| Strings.SplitLinesTerminated | EmailScraper/main.py:57 | `splitlines` undoes ending each boundary-free line with `"\n"` |
| Strings.RemoveAll | EmailScraper/main.py:62 | `replace(pat, "")` never lengthens the text |
| Strings.RemoveAllAbsent | EmailScraper/main.py:62 | text without an occurrence of the pattern is unchanged |
| Strings.RemoveCharGone | EmailScraper/main.py:62 | after `replace(" ", "")` no space is left, and the text is shorter by exactly its number of spaces |
| Strings.RemoveAllKeepsPrefix | hn_scraper.py.py:30 | a prefix that cannot start an occurrence of the pattern is kept as is |
| Numbers.ParseInt | hn_scraper.py.py:30 | an accepted text starts with a digit or a sign, holds only digits and underscores after it, and what follows the sign has at most 4300 digits, underscores not counted |
| Numbers.ParseShow | hn_scraper.py.py:30 | `int(str(n)) == n` for every integer of at most 4300 digits |
| Numbers.TooManyDigits | hn_scraper.py.py:30-32 | a digit text (digits, with single underscores between digits) of more than 4300 digits, underscores not counted, makes `int()` raise `ValueError`, with or without a sign in front |
| Numbers.ParseRejects | hn_scraper.py.py:30-32 | a character other than a digit, an underscore or a leading sign makes `int()` fail |
| Numbers.ParseExamples | hn_scraper.py.py:30 | `"1_000"` is 1000, `"-42"` is -42, and `"1__0"` and `""` fail |
| Patterns.MatchesEmail | EmailScraper/main.py:39 | the first-`@`/last-`.` test is true exactly when some decomposition matches EMAIL_REGEX |
| Patterns.EmailAccepted | EmailScraper/main.py:39 | every `local@domain.tld` built from the pattern's classes is accepted |
| Patterns.MatchesPhone | EmailScraper/main.py:40 | `PHONE_REGEX.fullmatch`: some split into an optional country group, an optional area group and 6 to 10 subscriber digits; what that implies is stated by `PhoneShape`, `DigitsAccepted` and the examples |
| Patterns.EmailShape | EmailScraper/main.py:39 | an accepted email holds exactly one `@` and ends in `.` and two or more lowercase letters |
| Patterns.CountryGroupBound | EmailScraper/main.py:40 | the country group is at most 6 characters, at most 4 when all digits |
| Patterns.AreaGroupBound | EmailScraper/main.py:40 | the area group is at most 7 characters; all digits, it is 0 or 2 to 4 long |
| Patterns.PhoneShape | EmailScraper/main.py:40 | an accepted phone is 6 to 23 characters long and ends in at least six digits |
| Patterns.SubscriberOnlyAccepted | EmailScraper/main.py:40 | every string of 6 to 10 digits is accepted |
| Patterns.DigitsAccepted | EmailScraper/main.py:40 | a string of digits is accepted exactly when it is 6 to 18 long |
| Patterns.CountryCodeExample | EmailScraper/main.py:40 | `"+91-9876543210"` is accepted |
| Patterns.AreaCodeExample | EmailScraper/main.py:40 | `"(022)-12345678"` is accepted |
| Patterns.ShortPhoneExample | EmailScraper/main.py:40 | `"12345"` is rejected |
| Contacts.Fields | EmailScraper/main.py:58 | one stripped field per comma-separated piece |
| Contacts.Accepts | EmailScraper/main.py:62 | the test a line's fields must pass: `EMAIL_REGEX.fullmatch` of the email and `PHONE_REGEX.fullmatch` of the phone with every space removed (what it implies is stated by `ParseJoined` and `PhoneStoredWithSpaces`) |
| Contacts.ParseLine | EmailScraper/main.py:58-63 | a line without exactly two commas gives nothing; a contact given has stripped fields, an accepted email and an accepted phone |
| Contacts.ParseLineOnOneLine | EmailScraper/main.py:57-63 | a line without boundaries yields a contact with no boundary in any field |
| Contacts.ContactsOf | EmailScraper/main.py:57-63 | no more contacts than lines |
| Contacts.ExtractContacts | EmailScraper/main.py:55-64 | the loop returns the contacts of the text's lines in line order, at most one per line, all well formed and with no line boundary in any field |
| Contacts.ContactsOnOneLine | EmailScraper/main.py:57-63 | lines without boundaries, as `splitlines` gives them, yield contacts with no boundary in any field |
| Contacts.ContactsAppend | EmailScraper/main.py:57-63 | lines are processed independently: the contacts of two blocks are the first block's followed by the second's |
| Contacts.ContactsWellFormed | EmailScraper/main.py:62-63 | every contact has stripped fields, an email matching EMAIL_REGEX and a phone matching PHONE_REGEX once its spaces are removed |
| Contacts.ContactsMembership | EmailScraper/main.py:57-63 | a contact is returned exactly when some line parses to it |
| Contacts.LinesUsed | EmailScraper/main.py:57-63 | the k-th contact comes from a line, and those lines increase with k, so contacts keep line order |
| Contacts.LinesUsedComplete | EmailScraper/main.py:57-63 | a line is among those used exactly when it parses |
| Contacts.MalformedLineIgnored | EmailScraper/main.py:59-60 | a line that does not split into three fields contributes nothing, wherever it stands |
| Contacts.ParseJoined | EmailScraper/main.py:58-63 | a line of three comma-free pieces gives the three stripped pieces when the stripped email and phone pass, else nothing |
| Contacts.SpaceDropped | EmailScraper/main.py:62 | removing spaces joins the space-free pieces around a space |
| Contacts.PhoneStoredWithSpaces | EmailScraper/main.py:62-63 | the phone is tested without its spaces but stored with them |
| Dedup.RemoveDuplicates | EmailScraper/main.py:131 | the result has no duplicates, exactly the input's elements and is no longer than the input |
| Dedup.DistinctUnchanged | EmailScraper/main.py:131 | input without duplicates is left as it is |
| Dedup.Idempotent | EmailScraper/main.py:131 | removing duplicates twice is removing them once |
| Dedup.DistinctLength | EmailScraper/main.py:131 | a sequence without duplicates is as long as its set of elements |
| Dedup.Length | EmailScraper/main.py:131 | the result has as many contacts as the input has different ones |
| Dedup.Absorbs | EmailScraper/main.py:131 | contacts already present add nothing |
| Dedup.Doubled | EmailScraper/main.py:131 | reading the same contacts twice changes nothing |
| Extraction.ExtractFromPdf | EmailScraper/main.py:43-48 | the text is each page's text followed by `"\n"`, in page order |
| Extraction.NewlineAdded | EmailScraper/main.py:47 | the `"\n"` after a text adds one empty line exactly when the text is empty or ends in a boundary other than `"\r"`, and otherwise leaves the lines as they are |
| Extraction.NewlineIgnored | EmailScraper/main.py:47 | the `"\n"` after a text changes none of its contacts |
| Extraction.PdfOnePage | EmailScraper/main.py:47 | the `"\n"` after a page changes none of its contacts |
| Extraction.PdfPagesAppend | EmailScraper/main.py:46-47 | pages are read independently: no line runs across a page boundary |
| Extraction.PdfContacts | EmailScraper/main.py:43-48 | the contacts of a PDF are the contacts of its pages, page by page, in page order |
| Extraction.WordText | EmailScraper/main.py:50-53 | `"\n".join` of the paragraph texts; `JoinTerminated` relates it to the PDF text |
| Extraction.JoinTerminated | EmailScraper/main.py:52 | the Word text followed by `"\n"` is every paragraph followed by `"\n"` |
| Extraction.WordLines | EmailScraper/main.py:52 | the lines of the Word text are its paragraphs, possibly less a final empty one |
| Extraction.WordContacts | EmailScraper/main.py:52 | a Word document gives the contacts of its paragraphs, paragraph by paragraph, in order, also when a paragraph holds line breaks of its own |
| Extraction.WordParagraphContacts | EmailScraper/main.py:52 | when no paragraph holds a line break, the contacts are those of the paragraphs read as lines |
| Extraction.Lower | EmailScraper/main.py:121 | lower-casing keeps the length, leaves no upper-case ASCII letter, moves each one 32 code points up and keeps every other character |
| Extraction.LowerIdempotent | EmailScraper/main.py:121 | lower-casing twice is lower-casing once |
| Extraction.KindOf | EmailScraper/main.py:121-126 | the branch for a suffix: `.pdf` to the PDF reader, `.docx` or `.doc` to the Word reader, any other skipped, after lower-casing |
| Extraction.KindIgnoresCase | EmailScraper/main.py:121-126 | the suffix test ignores case |
| Extraction.KindExamples | EmailScraper/main.py:121-126 | `.PDF` is read as PDF, `.Docx` and `.doc` as Word, `.txt` and no suffix are skipped |
| Extraction.FileContacts | EmailScraper/main.py:120-127 | a skipped file gives no contacts, and every contact a file gives is well formed, with no line boundary in any field |
| Extraction.GatherContacts | EmailScraper/main.py:118-128 | the loop extends `all_contacts` with each file's contacts, in file order; all are well formed and on one line |
| Extraction.GatheredAppend | EmailScraper/main.py:120-128 | files are processed independently and in order |
| Extraction.GatheredWellFormed | EmailScraper/main.py:120-128 | every gathered contact is well formed |
| Extraction.GatheredOnOneLine | EmailScraper/main.py:120-128 | no gathered contact has a line boundary in a field |
| Extraction.SkippedFileIgnored | EmailScraper/main.py:125-126 | a file of another suffix contributes nothing, wherever it stands |
| Extraction.GatheredMembership | EmailScraper/main.py:120-128 | a contact is gathered exactly when some file contributes it |
| Writers.ContactLine | EmailScraper/main.py:71 | the f-string of line 71: name, email and phone separated by a vertical bar with a space on each side; when the fields hold no line boundary, neither does the line |
| Writers.SaveToText | EmailScraper/main.py:66-71 | the text written is exactly the header line, 40 dashes and one line per contact, each ended by `"\n"` |
| Writers.TextLines | EmailScraper/main.py:67-71 | read back by lines, the file is the header, the dashes and the contact lines in order: n + 2 lines |
| Writers.ReadContactLine | EmailScraper/main.py:71 | for stripped fields that hold no `'\|'`, splitting the contact line at `'\|'` and stripping gives the contact back |
| Writers.PipeNotReadBack | EmailScraper/main.py:71 | a name holding `'\|'` makes the contact line split into more than three pieces, so it does not read back |
| Writers.PipeNameExtracted | EmailScraper/main.py:58-63 | a stripped, comma-free name holding `'\|'` is still extracted when the email and phone pass, and its text line then does not read back |
| Writers.TableLayout | EmailScraper/main.py:73-95 | the rows are the header then one row per contact in input order, columns name/email/phone, n + 1 rows |
| Writers.SaveToExcel | EmailScraper/main.py:73-80 | the sheet is titled `"Contacts"` and holds the table rows |
| Writers.SaveToWord | EmailScraper/main.py:82-95 | a level-1 heading `"Extracted Contacts"` and the table rows, filled cell by cell |
| Writers.NextRecordY | EmailScraper/main.py:110-113 | after a contact the cursor moves down 20, or goes back to 800 when that falls below 50 |
| Writers.SaveToPdf | EmailScraper/main.py:97-114 | the canvas calls are the preamble and then each contact's line at its height, with a page break where the rule puts one |
| Writers.RecordBounds | EmailScraper/main.py:102-113 | every contact is drawn with 50 <= y <= 800, the first at y = 730 |
| Writers.PageBreaks | EmailScraper/main.py:110-113 | a page breaks after the 35th contact and after every further 38th, and the next contact is at y = 800 |
| Writers.PageStep | EmailScraper/main.py:110-113 | the page number goes up by one exactly after a break |
| Writers.RecordEventsCounts | EmailScraper/main.py:108-113 | each contact draws one line and turns at most one page |
| Writers.LayoutPages | EmailScraper/main.py:107-113 | after n contacts the canvas has turned `PageOf(n)` pages, including a break after a last contact that fills its page |
| Writers.LayoutDrawn | EmailScraper/main.py:107-109 | the lines drawn are the contact lines, one per contact, in order |
| Writers.LayoutInBounds | EmailScraper/main.py:107-113 | every contact line is drawn at x = 50 with 50 <= y <= 800 |
| Scraper.Run | EmailScraper/main.py:117-137 | the outputs hold the gathered contacts without duplicates, all well formed and on one line, in the four layouts; the text file reads back by lines as the header, the dashes and one line per contact |
| HackerNews.Points | hn_scraper.py.py:29-32 | the vote text at the link's index with `" points"` removed, stripped and read by `int()`; 0 when there is no vote there or `int()` raises (stated by `PointsOfText`, `ZeroFallback`, `HugeVoteIsZero`, `SingularPointIsZero`) |
| HackerNews.PopularNews | hn_scraper.py.py:12-41 | the loop returns the entries of the links with enough points, at most one per link, each at the threshold or above |
| HackerNews.PopularSelected | hn_scraper.py.py:24-39 | each entry copies the title and href of the link at its index, has the points of the vote at that index, and entries keep link order |
| HackerNews.SelectedIff | hn_scraper.py.py:34 | a link is kept exactly when its points reach `min_points` |
| HackerNews.ZeroFallback | hn_scraper.py.py:29-34 | a missing or unparsable vote gives 0 points, so its link is kept exactly when `min_points <= 0` |
| HackerNews.PointsOfText | hn_scraper.py.py:30 | the vote text `"<n> points"` gives n points, for n of at most 4300 digits |
| HackerNews.HugeVoteIsZero | hn_scraper.py.py:30-32 | a vote of more than 4300 digits makes `int()` raise, so it counts as 0 |
| HackerNews.SingularPointIsZero | hn_scraper.py.py:30-32 | the singular `"<n> point"` is not rewritten, is not an integer, and counts as 0 |

## Left out

- File and network I/O is not modelled:
  - creating the output directory, listing the input directory and opening and writing files;
  - `wb.save`, `doc.save` and `c.save`;
  - `requests.get` and `fetch_news`.
  The input files are given as a sequence, in the order the directory listing yields them.
- The document libraries are abstracted:
  - `PdfReader`, `docx`, `openpyxl` and the reportlab canvas are not modelled.
  - An input file offers the page texts a PDF reader would extract and the paragraph texts a Word reader would give.
  - The writers produce the text, the rows, and the sequence of canvas calls.
  - Fonts and how text is rendered are not modelled.
- BeautifulSoup is abstracted: a link is its text and optional `href`, a vote is its text, and `soup.select` is not modelled.
- `Path.suffix` is not computed: a file is given with its suffix.
- `\d` in `PHONE_REGEX` and the digits `int()` accepts are the ASCII digits only. Python also accepts other Unicode decimal digits.
- Dedup.RemoveDuplicates: the order of `list(set(...))` is left unspecified by Python; the model keeps first occurrences, which is one possible order. Its contract (no duplicates, the same elements, no longer) holds for any order. The sequence equalities of `Dedup.DistinctUnchanged`, `Dedup.Idempotent`, `Dedup.Absorbs` and `Dedup.Doubled` hold for the first-occurrence order only: `list(set([b, a]))` may be `[a, b]`.
- Scraper.Run: its four outputs list the contacts in first-occurrence order, where the program writes them in set order.
- Scraper.Run: a reader that raises is not modelled. `docx.Document` opens only the `.docx` package format, so it raises on every `.doc` file the suffix test sends it, and `PdfReader` raises on an unreadable PDF. Either exception ends the program before any output is written. The model reads every selected file and returns the four outputs whenever those two readers succeed.
- Scraper.Run: a writer that raises is not modelled. A name may hold any character but a comma or a line boundary, and a phone may hold whitespace that is not a line boundary, such as U+001F. openpyxl's `ws.append` refuses the control characters U+0000 to U+0008, U+000B, U+000C and U+000E to U+001F in a cell, and python-docx's `cell.text` refuses the same ones. A gathered contact holding one of them stops the program in `save_to_excel`, after `contacts.txt` is written. The model returns all four outputs.
- Numbers.ParseInt: the digit limit is CPython's default of 4300. A limit changed through `PYTHONINTMAXSTRDIGITS` or `sys.set_int_max_str_digits`, and interpreter releases without a limit, are not modelled.
- Nothing printed to the console is modelled: the final message of `main.py` and the listing in `hn_scraper.py.py`'s main block.
- The default `min_points=100` is not modelled; callers pass the threshold.
- Writers.ReadContactLine: the text file reads back only for names without `'|'`. The name field may hold `'|'`, and a name such as `Doe | Jane` is extracted, but its line then has four `'|'`-separated pieces (`Writers.PipeNameExtracted`). The model promises the read-back only for names without `'|'`.
- Extraction.Lower: lowers only ASCII letters. Python's `str.lower` also lowers other letters, but none of them lowers to a character of `".pdf"`, `".docx"` or `".doc"`, so the branch taken is the same.
- Extraction.WordLines: when the last paragraph is empty, it states only that the lines are the paragraphs, or the paragraphs less that final empty one. It does not say which. `Extraction.WordParagraphContacts` gives the same contacts in both cases.
