/** Where the text of EmailScraper/main.py comes from: `extract_from_pdf` (page texts, each
    followed by `"\n"`), `extract_from_word` (paragraphs joined by `"\n"`), the dispatch on the
    lower-cased file suffix, and the main loop that extends `all_contacts` file by file. The PDF
    and Word libraries are abstracted away: a file offers the page texts a PDF reader yields
    and the paragraph texts a Word reader yields. */
module Extraction {
  import opened Wrappers
  import opened Strings
  import opened Seqs
  import opened Contacts

  // ---------------------------------------------------------------- PDF and Word text

  /** `extract_from_pdf`: every page text followed by `"\n"`, in page order. */
  method ExtractFromPdf(pages: seq<string>) returns (text: string)
    ensures text == Terminated(pages)
  {
    text := "";
    for i := 0 to |pages|
      invariant text == Terminated(pages[..i])
    {
      assert pages[..i + 1] == pages[..i] + [pages[i]];
      TerminatedAppend(pages[..i], [pages[i]]);
      assert Terminated([pages[i]]) == pages[i] + "\n" by {
        assert [pages[i]][1..] == [];
      }
      text := text + pages[i] + "\n";
    }
    assert pages[..|pages|] == pages;
  }

  /** `extract_from_word`: `"\n".join(para.text for para in doc.paragraphs)`. */
  function WordText(paragraphs: seq<string>): string {
    Join(paragraphs, "\n")
  }

  lemma {:induction false} TerminatedEndsInNewline(lines: seq<string>)
    requires lines != []
    ensures Terminated(lines) != [] && Terminated(lines)[|Terminated(lines)| - 1] == '\n'
  {
    if |lines| > 1 {
      TerminatedEndsInNewline(lines[1..]);
    }
  }

  /** Whether `p` ends where a line boundary has just been passed: it is empty, or its last
      character is a boundary that a following `"\n"` cannot join (anything but `"\r"`). */
  predicate EndsAtBoundary(p: string) {
    p == [] || (IsLineBreak(p[|p| - 1]) && p[|p| - 1] != '\r')
  }

  /** A `"\n"` added after a text adds one empty line exactly when the text ends at a
      boundary; otherwise it only ends the last line (or joins a final `"\r"` into `"\r\n"`),
      and the lines are unchanged. */
  lemma {:induction false} NewlineAdded(p: string)
    ensures SplitLines(p + "\n") == if EndsAtBoundary(p) then SplitLines(p) + [""] else SplitLines(p)
    decreases |p|
  {
    var k := LineEnd(p);
    if p == [] {
      NewlineAfterEmpty();
    } else if k == |p| {
      NewlineEndsLine(p);
    } else if k == |p| - 1 && p[k] == '\r' {
      NewlineAfterReturn(p);
    } else {
      var w := BreakWidth(p, k);
      var rest := p[k + w..];
      SplitLinesFirst(p, "\n", k, w);
      NewlineAdded(rest);
      if rest == [] {
        LastBoundary(p, k, w);
      } else {
        LastKept(p, k + w);
      }
      FirstLineKept(p[..k], SplitLines(rest), SplitLines(rest + "\n"), SplitLines(p),
                    SplitLines(p + "\n"), EndsAtBoundary(p));
    }
  }

  lemma FirstLineKept(first: string, rest: seq<string>, rest': seq<string>, all: seq<string>,
                      all': seq<string>, added: bool)
    requires rest' == if added then rest + [""] else rest
    requires all == [first] + rest && all' == [first] + rest'
    ensures all' == if added then all + [""] else all
  {
  }

  lemma NewlineAfterEmpty()
    ensures SplitLines("\n") == [""]
  {
    var s := "\n";
    assert LineEnd(s) == 0;
    assert s[1..] == [];
  }

  /** A text without boundaries is one line, and a `"\n"` after it ends that line. */
  lemma NewlineEndsLine(p: string)
    requires p != [] && LineEnd(p) == |p|
    ensures SplitLines(p + "\n") == SplitLines(p) && !EndsAtBoundary(p)
  {
    assert p[..|p|] == p;
    TerminatedLine(p);
  }

  /** A `"\n"` after a final lone `"\r"` makes it one `"\r\n"` boundary. */
  lemma NewlineAfterReturn(p: string)
    requires p != [] && LineEnd(p) == |p| - 1 && p[|p| - 1] == '\r'
    ensures SplitLines(p + "\n") == SplitLines(p) && !EndsAtBoundary(p)
  {
    var s := p + "\n";
    var k := |p| - 1;
    LineEndPrefix(p, "\n");
    assert BreakWidth(p, k) == 1;
    assert p[k + 1..] == [];
    assert SplitLines(p) == [p[..k]];
    assert BreakWidth(s, k) == 2;
    assert s[k + 2..] == [];
    assert s[..k] == p[..k];
    assert SplitLines(s) == [s[..k]];
  }

  /** A first boundary that reaches the end of the text, and is not a final lone `"\r"`,
      leaves the text ending at a boundary. */
  lemma LastBoundary(p: string, k: nat, w: nat)
    requires k == LineEnd(p) && k < |p| && (k < |p| - 1 || p[k] != '\r')
    requires w == BreakWidth(p, k) && k + w == |p|
    ensures EndsAtBoundary(p)
  {
    if w == 2 {
      assert p[|p| - 1] == p[k + 1];
    }
  }

  /** Cutting off a proper prefix does not change how the text ends. */
  lemma LastKept(p: string, j: nat)
    requires j < |p|
    ensures EndsAtBoundary(p[j..]) == EndsAtBoundary(p)
  {
    assert p[j..][|p| - j - 1] == p[|p| - 1];
  }

  lemma EmptyLineIgnored(lines: seq<string>)
    ensures ContactsOf(lines + [""]) == ContactsOf(lines)
  {
    ContactsAppend(lines, [""]);
    SingleLine("");
    assert Count("", ',') == 0;
  }

  /** A `"\n"` after a text changes none of its contacts. */
  lemma NewlineIgnored(p: string)
    ensures ContactsOf(SplitLines(p + "\n")) == ContactsOf(SplitLines(p))
  {
    NewlineAdded(p);
    if EndsAtBoundary(p) {
      EmptyLineIgnored(SplitLines(p));
    }
  }

  /** The `"\n"` after a page changes no contact of that page. */
  lemma PdfOnePage(p: string)
    ensures ContactsOf(SplitLines(Terminated([p]))) == ContactsOf(SplitLines(p))
  {
    assert Terminated([p]) == p + "\n" by {
      assert [p][1..] == [];
    }
    NewlineIgnored(p);
  }

  /** Pages are read independently: no line runs across a page boundary, so the contacts of
      the PDF text are those of the first pages followed by those of the rest. */
  lemma PdfPagesAppend(a: seq<string>, b: seq<string>)
    ensures ContactsOf(SplitLines(Terminated(a + b)))
            == ContactsOf(SplitLines(Terminated(a))) + ContactsOf(SplitLines(Terminated(b)))
  {
    TerminatedAppend(a, b);
    if a == [] {
      assert a + b == b;
    } else {
      TerminatedEndsInNewline(a);
      SplitLinesAppend(Terminated(a), Terminated(b));
      ContactsAppend(SplitLines(Terminated(a)), SplitLines(Terminated(b)));
    }
  }

  /** The contacts `extract_contacts` finds in one text. */
  function TextContacts(text: string): seq<Contact> {
    ContactsOf(SplitLines(text))
  }

  /** The contacts of a PDF are the contacts of its pages, page by page, in page order. */
  lemma {:induction false} PdfContacts(pages: seq<string>)
    ensures TextContacts(Terminated(pages)) == Flatten(Map(TextContacts, pages))
  {
    if pages != [] {
      var n := |pages| - 1;
      var init, last := pages[..n], pages[n];
      assert pages == init + [last];
      calc {
        TextContacts(Terminated(pages));
        { PdfPagesAppend(init, [last]); }
        TextContacts(Terminated(init)) + TextContacts(Terminated([last]));
        { PdfContacts(init); PdfOnePage(last); }
        Flatten(Map(TextContacts, init)) + TextContacts(last);
        { FlattenOne(TextContacts(last)); }
        Flatten(Map(TextContacts, init)) + Flatten([TextContacts(last)]);
        { FlattenAppend(Map(TextContacts, init), [TextContacts(last)]); }
        Flatten(Map(TextContacts, init) + [TextContacts(last)]);
        { MapAppend(TextContacts, init, [last]);
          assert Map(TextContacts, [last]) == [TextContacts(last)]; }
        Flatten(Map(TextContacts, pages));
      }
    }
  }

  lemma {:induction false} JoinTerminated(paragraphs: seq<string>)
    requires paragraphs != []
    ensures WordText(paragraphs) + "\n" == Terminated(paragraphs)
  {
    if |paragraphs| == 1 {
      assert paragraphs[1..] == [];
    } else {
      JoinTerminated(paragraphs[1..]);
    }
  }

  /** The lines of a Word text are its paragraphs, less a final empty paragraph (the boundary
      before it ends the text). */
  lemma WordLines(paragraphs: seq<string>)
    requires forall i :: 0 <= i < |paragraphs| ==> NoLineBreak(paragraphs[i])
    ensures SplitLines(WordText(paragraphs)) == paragraphs ||
            (paragraphs != [] && paragraphs[|paragraphs| - 1] == "" &&
             SplitLines(WordText(paragraphs)) + [""] == paragraphs)
  {
    if paragraphs != [] {
      JoinTerminated(paragraphs);
      SplitLinesTerminated(paragraphs);
      NewlineAdded(WordText(paragraphs));
      var ls := SplitLines(WordText(paragraphs));
      if ls + [""] == paragraphs {
        assert paragraphs[|paragraphs| - 1] == "";
      }
    }
  }

  /** A Word document gives the contacts of its paragraphs, paragraph by paragraph, in
      paragraph order. A paragraph may hold line breaks of its own (a soft break reads as
      `"\n"`); its lines are then read as the lines of any other text. */
  lemma WordContacts(paragraphs: seq<string>)
    ensures TextContacts(WordText(paragraphs)) == Flatten(Map(TextContacts, paragraphs))
  {
    if paragraphs == [] {
      assert WordText(paragraphs) == [];
    } else {
      JoinTerminated(paragraphs);
      NewlineIgnored(WordText(paragraphs));
      PdfContacts(paragraphs);
    }
  }

  /** When no paragraph holds a line break, every paragraph is one line, and the contacts are
      those of the paragraphs read as lines. */
  lemma WordParagraphContacts(paragraphs: seq<string>)
    requires forall i :: 0 <= i < |paragraphs| ==> NoLineBreak(paragraphs[i])
    ensures ContactsOf(SplitLines(WordText(paragraphs))) == ContactsOf(paragraphs)
  {
    WordLines(paragraphs);
    if SplitLines(WordText(paragraphs)) != paragraphs {
      EmptyLineIgnored(SplitLines(WordText(paragraphs)));
    }
  }

  // ---------------------------------------------------------------- dispatch on the suffix

  predicate IsUpper(c: char) {
    'A' <= c <= 'Z'
  }

  function LowerChar(c: char): char {
    if IsUpper(c) then (c as int + 32) as char else c
  }

  /** Lower-casing of the ASCII letters: no upper-case letter is left, each one becomes the
      letter 32 code points above it (`'A'` to `'a'`), and every other character is kept. No
      other character lowers to one of the characters of `".pdf"`, `".docx"` or `".doc"`, so
      the suffix tests below decide as `str.lower()` does. */
  function Lower(s: string): (r: string)
    ensures |r| == |s|
    ensures forall i :: 0 <= i < |r| ==> !IsUpper(r[i])
    ensures forall i :: 0 <= i < |s| && IsUpper(s[i]) ==> r[i] as int == s[i] as int + 32
    ensures forall i :: 0 <= i < |s| && !IsUpper(s[i]) ==> r[i] == s[i]
  {
    seq(|s|, i requires 0 <= i < |s| => LowerChar(s[i]))
  }

  datatype Kind = Pdf | Word | Skipped

  /** The branch taken for a file with suffix `suffix`. */
  function KindOf(suffix: string): Kind {
    var l := Lower(suffix);
    if l == ".pdf" then Pdf else if l == ".docx" || l == ".doc" then Word else Skipped
  }

  lemma LowerIdempotent(s: string)
    ensures Lower(Lower(s)) == Lower(s)
  {
  }

  /** The test ignores case. */
  lemma KindIgnoresCase(suffix: string)
    ensures KindOf(Lower(suffix)) == KindOf(suffix)
  {
    LowerIdempotent(suffix);
  }

  lemma KindExamples()
    ensures KindOf(".PDF") == Pdf && KindOf(".Docx") == Word && KindOf(".doc") == Word
    ensures KindOf(".txt") == Skipped && KindOf("") == Skipped
  {
    assert Lower(".PDF") == ".pdf";
    assert Lower(".Docx") == ".docx";
    assert Lower(".doc") == ".doc";
  }

  /** An input file: its suffix, the page texts a PDF reader gives for it and the paragraph
      texts a Word reader gives for it. Only the reader its suffix selects is consulted. */
  datatype InputFile = InputFile(suffix: string, pages: seq<string>, paragraphs: seq<string>)

  /** The text read from a file, or `None` for a file the loop skips. */
  function FileText(f: InputFile): Option<string> {
    match KindOf(f.suffix)
    case Pdf => Some(Terminated(f.pages))
    case Word => Some(WordText(f.paragraphs))
    case Skipped => None
  }

  /** The contacts one file contributes. */
  function FileContacts(f: InputFile): (cs: seq<Contact>)
    ensures FileText(f) == None ==> cs == []
    ensures forall k :: 0 <= k < |cs| ==> WellFormed(cs[k])
    ensures forall k :: 0 <= k < |cs| ==> FieldsOnOneLine(cs[k])
  {
    match FileText(f)
    case Some(text) =>
      ContactsWellFormed(SplitLines(text));
      ContactsOnOneLine(SplitLines(text));
      TextContacts(text)
    case None => []
  }

  /** `all_contacts` before deduplication: the contacts of each file, in file order. */
  function Gathered(files: seq<InputFile>): seq<Contact> {
    Flatten(Map(FileContacts, files))
  }

  /** The loop of lines 120-128: read each file the suffix selects, extract its contacts and
      extend `all_contacts` with them. */
  method GatherContacts(files: seq<InputFile>) returns (all: seq<Contact>)
    ensures all == Gathered(files)
    ensures forall k :: 0 <= k < |all| ==> WellFormed(all[k])
    ensures forall k :: 0 <= k < |all| ==> FieldsOnOneLine(all[k])
  {
    all := [];
    for i := 0 to |files|
      invariant all == Gathered(files[..i])
    {
      GatheredSnoc(files, i);
      var file := files[i];
      var text;
      var kind := KindOf(file.suffix);
      if kind == Pdf {
        text := ExtractFromPdf(file.pages);
      } else if kind == Word {
        text := WordText(file.paragraphs);
      } else {
        continue;
      }
      var contacts := ExtractContacts(text);
      all := all + contacts;
    }
    assert files[..|files|] == files;
    GatheredWellFormed(files);
    GatheredOnOneLine(files);
  }

  /** The files are processed independently and in order. */
  lemma GatheredAppend(a: seq<InputFile>, b: seq<InputFile>)
    ensures Gathered(a + b) == Gathered(a) + Gathered(b)
  {
    MapAppend(FileContacts, a, b);
    FlattenAppend(Map(FileContacts, a), Map(FileContacts, b));
  }

  /** One more file adds what that file contributes. */
  lemma GatheredSnoc(files: seq<InputFile>, i: nat)
    requires i < |files|
    ensures Gathered(files[..i + 1]) == Gathered(files[..i]) + FileContacts(files[i])
  {
    assert files[..i + 1] == files[..i] + [files[i]];
    GatheredAppend(files[..i], [files[i]]);
    GatheredOne(files[i]);
  }

  lemma GatheredOne(f: InputFile)
    ensures Gathered([f]) == FileContacts(f)
  {
    assert Map(FileContacts, [f]) == [FileContacts(f)];
    FlattenOne(FileContacts(f));
  }

  /** Every gathered contact has stripped fields, a valid email and a valid phone. */
  lemma GatheredWellFormed(files: seq<InputFile>)
    ensures forall k :: 0 <= k < |Gathered(files)| ==> WellFormed(Gathered(files)[k])
  {
    FlattenAll(Map(FileContacts, files), WellFormed);
  }

  /** No gathered contact has a field that holds a line boundary. */
  lemma GatheredOnOneLine(files: seq<InputFile>)
    ensures forall k :: 0 <= k < |Gathered(files)| ==> FieldsOnOneLine(Gathered(files)[k])
  {
    FlattenAll(Map(FileContacts, files), FieldsOnOneLine);
  }

  /** A file whose suffix is neither `.pdf`, `.docx` nor `.doc` contributes nothing, wherever
      it stands. */
  lemma SkippedFileIgnored(before: seq<InputFile>, f: InputFile, after: seq<InputFile>)
    requires KindOf(f.suffix) == Skipped
    ensures Gathered(before + [f] + after) == Gathered(before + after)
  {
    GatheredOne(f);
    GatheredAppend(before, [f]);
    GatheredAppend(before + [f], after);
    GatheredAppend(before, after);
  }

  /** A contact is gathered exactly when some file contributes it. */
  lemma GatheredMembership(files: seq<InputFile>, c: Contact)
    ensures c in Gathered(files) <==> exists i :: 0 <= i < |files| && c in FileContacts(files[i])
  {
    FlattenMembership(Map(FileContacts, files), c);
  }
}
