/** The four writers of EmailScraper/main.py, each producing an abstract document instead of a
    file: `save_to_text` the text written, `save_to_excel` the worksheet's title and rows,
    `save_to_word` the heading and the table, and `save_to_pdf` the canvas calls. */
module Writers {
  import opened Wrappers
  import opened Strings
  import opened Seqs
  import opened Contacts

  /** `f"{name} | {email} | {phone}"`: one contact as a line of the text and PDF outputs. */
  function ContactLine(c: Contact): (line: string)
    ensures FieldsOnOneLine(c) ==> NoLineBreak(line)
  {
    c.name + " | " + c.email + " | " + c.phone
  }

  const TextHeader: string := "Name | Email | Phone"

  // ---------------------------------------------------------------- text

  /** The whole text file: the header line, forty dashes, then one line per contact, every
      line ended by `"\n"`. */
  function TextDocument(contacts: seq<Contact>): string {
    Terminated([TextHeader, Repeat('-', 40)] + Map(ContactLine, contacts))
  }

  /** `save_to_text`: the text written to the file. */
  method SaveToText(contacts: seq<Contact>) returns (text: string)
    ensures text == TextDocument(contacts)
  {
    var head := [TextHeader, Repeat('-', 40)];
    text := "Name | Email | Phone\n";
    text := text + Repeat('-', 40) + "\n";
    assert text == Terminated(head) by {
      assert head[1..] == [Repeat('-', 40)];
      assert head[1..][1..] == [];
      assert Terminated(head[1..]) == Repeat('-', 40) + "\n";
    }
    assert contacts[..0] == [];
    for i := 0 to |contacts|
      invariant text == Terminated(head + Map(ContactLine, contacts[..i]))
    {
      var c := contacts[i];
      TextStep(head, contacts, i);
      text := text + c.name + " | " + c.email + " | " + c.phone + "\n";
    }
    assert contacts[..|contacts|] == contacts;
  }

  lemma TextStep(head: seq<string>, contacts: seq<Contact>, i: nat)
    requires i < |contacts|
    ensures Terminated(head + Map(ContactLine, contacts[..i + 1]))
            == Terminated(head + Map(ContactLine, contacts[..i])) + ContactLine(contacts[i]) + "\n"
  {
    assert contacts[..i + 1] == contacts[..i] + [contacts[i]];
    MapAppend(ContactLine, contacts[..i], [contacts[i]]);
    assert head + Map(ContactLine, contacts[..i + 1]) == (head + Map(ContactLine, contacts[..i])) + [ContactLine(contacts[i])];
    TerminatedAppend(head + Map(ContactLine, contacts[..i]), [ContactLine(contacts[i])]);
    assert Terminated([ContactLine(contacts[i])]) == ContactLine(contacts[i]) + "\n" by {
      assert [ContactLine(contacts[i])][1..] == [];
    }
  }

  /** Read back line by line, the text file is the header, the dashes, and one line per contact
      in the given order: `n + 2` lines for `n` contacts. */
  lemma TextLines(contacts: seq<Contact>)
    requires forall k :: 0 <= k < |contacts| ==> FieldsOnOneLine(contacts[k])
    ensures SplitLines(TextDocument(contacts)) == [TextHeader, Repeat('-', 40)] + Map(ContactLine, contacts)
    ensures |SplitLines(TextDocument(contacts))| == |contacts| + 2
  {
    var lines := [TextHeader, Repeat('-', 40)] + Map(ContactLine, contacts);
    forall i | 0 <= i < |lines|
      ensures NoLineBreak(lines[i])
    {
      if i >= 2 {
        assert lines[i] == ContactLine(contacts[i - 2]);
      }
    }
    SplitLinesTerminated(lines);
  }

  /** Splitting a contact line at `'|'` and stripping the pieces gives the contact back, when the
      fields are stripped and hold no `'|'`. */
  function ReadLine(line: string): Option<Contact> {
    var fields := Split(line, '|');
    if |fields| == 3 then Some(Contact(Strip(fields[0]), Strip(fields[1]), Strip(fields[2]))) else None
  }

  lemma ReadContactLine(c: Contact)
    requires IsStripped(c.name) && IsStripped(c.email) && IsStripped(c.phone)
    requires '|' !in c.name && '|' !in c.email && '|' !in c.phone
    ensures ReadLine(ContactLine(c)) == Some(c)
  {
    var a, b, d := c.name + " ", " " + c.email + " ", " " + c.phone;
    assert [a, b, d][1..] == [b, d];
    assert [b, d][1..] == [d];
    assert Join([b, d], ['|']) == b + ['|'] + d;
    assert Join([a, b, d], ['|']) == ContactLine(c);
    SplitJoin([a, b, d], '|');
    StripPadded([], c.name, " ");
    assert [] + c.name + " " == a;
    StripPadded(" ", c.email, " ");
    StripPadded(" ", c.phone, []);
    assert " " + c.phone + [] == d;
  }

  /** A name holding `'|'` splits the contact line into more than three pieces, so the line does
      not read back. */
  lemma PipeNotReadBack(c: Contact)
    requires '|' in c.name
    ensures ReadLine(ContactLine(c)) == None
  {
    var bar := " | ";
    assert Count(bar, '|') == 1 by {
      assert bar[1..] == "| " && bar[1..][1..] == " " && bar[1..][1..][1..] == [];
    }
    CountAppend(c.name, bar, '|');
    CountAppend(c.name + bar, c.email, '|');
    CountAppend(c.name + bar + c.email, bar, '|');
    CountAppend(c.name + bar + c.email + bar, c.phone, '|');
    CountAbsent(c.name, '|');
    assert Count(ContactLine(c), '|') >= 3;
  }

  /** Such a name is extracted all the same: a line `name,email,phone` of stripped, comma-free
      fields whose email and phone pass gives a contact that the text file does not give back. */
  lemma PipeNameExtracted(name: string, email: string, phone: string)
    requires IsStripped(name) && IsStripped(email) && IsStripped(phone)
    requires ',' !in name && ',' !in email && ',' !in phone
    requires Accepts(email, phone) && '|' in name
    ensures ParseLine(name + "," + email + "," + phone) == Some(Contact(name, email, phone))
    ensures ReadLine(ContactLine(Contact(name, email, phone))) == None
  {
    StripOfStripped(name);
    StripOfStripped(email);
    StripOfStripped(phone);
    ParseJoined(name, email, phone);
    PipeNotReadBack(Contact(name, email, phone));
  }

  // ---------------------------------------------------------------- spreadsheet and Word table

  const HeaderRow: seq<string> := ["Name", "Email", "Phone"]

  function Row(c: Contact): seq<string> {
    [c.name, c.email, c.phone]
  }

  /** The rows of the worksheet and of the Word table: the header row, then one row per
      contact. */
  function Table(contacts: seq<Contact>): seq<seq<string>> {
    [HeaderRow] + Map(Row, contacts)
  }

  /** Reading a table back: the contact of each row after the header. */
  function RowContact(row: seq<string>): Contact
    requires |row| == 3
  {
    Contact(row[0], row[1], row[2])
  }

  /** The table has `n + 1` rows of three cells, the header first, and the rows after it give
      back the contacts in their order, each with its fields in the order name, email, phone. */
  lemma TableLayout(contacts: seq<Contact>)
    ensures |Table(contacts)| == |contacts| + 1 && Table(contacts)[0] == HeaderRow
    ensures forall k :: 0 <= k < |Table(contacts)| ==> |Table(contacts)[k]| == 3
    ensures forall k :: 0 <= k < |contacts| ==> RowContact(Table(contacts)[k + 1]) == contacts[k]
  {
  }

  datatype Worksheet = Worksheet(title: string, rows: seq<seq<string>>)

  /** `save_to_excel`: the active sheet, titled `"Contacts"`, with one appended row per call of
      `ws.append`. */
  method SaveToExcel(contacts: seq<Contact>) returns (sheet: Worksheet)
    ensures sheet == Worksheet("Contacts", Table(contacts))
  {
    var rows: seq<seq<string>> := [];
    rows := rows + [["Name", "Email", "Phone"]];
    assert contacts[..0] == [];
    for i := 0 to |contacts|
      invariant rows == Table(contacts[..i])
    {
      TableStep(contacts, i);
      var c := contacts[i];
      rows := rows + [[c.name, c.email, c.phone]];
    }
    assert contacts[..|contacts|] == contacts;
    sheet := Worksheet("Contacts", rows);
  }

  lemma TableStep(contacts: seq<Contact>, i: nat)
    requires i < |contacts|
    ensures Table(contacts[..i + 1]) == Table(contacts[..i]) + [Row(contacts[i])]
  {
    assert contacts[..i + 1] == contacts[..i] + [contacts[i]];
    MapAppend(Row, contacts[..i], [contacts[i]]);
  }

  datatype WordDocument = WordDocument(heading: string, level: nat, table: seq<seq<string>>)

  /** `save_to_word`: a level-1 heading and a three-column table whose header row is filled
      in cell by cell, then one added row per contact, also filled cell by cell. */
  method SaveToWord(contacts: seq<Contact>) returns (doc: WordDocument)
    ensures doc == WordDocument("Extracted Contacts", 1, Table(contacts))
  {
    var header := ["", "", ""];
    header := header[0 := "Name"];
    header := header[1 := "Email"];
    header := header[2 := "Phone"];
    assert header == HeaderRow;
    var rows := [header];
    assert contacts[..0] == [];
    for i := 0 to |contacts|
      invariant rows == Table(contacts[..i])
    {
      TableStep(contacts, i);
      var c := contacts[i];
      var cells := ["", "", ""];
      cells := cells[0 := c.name];
      cells := cells[1 := c.email];
      cells := cells[2 := c.phone];
      assert cells == Row(c);
      rows := rows + [cells];
    }
    assert contacts[..|contacts|] == contacts;
    doc := WordDocument("Extracted Contacts", 1, rows);
  }

  // ---------------------------------------------------------------- PDF

  /** The canvas calls `save_to_pdf` makes, in order (`c.save()` is left out). */
  datatype PdfEvent = SetFont(font: string, size: nat) | DrawString(x: int, y: int, text: string) | ShowPage

  /** Everything drawn before the first contact: the title, the column header at 770 and a rule
      of seventy dashes at 750. */
  function Preamble(): seq<PdfEvent> {
    [ SetFont("Helvetica-Bold", 14), DrawString(50, 800, "Extracted Contacts"),
      SetFont("Helvetica", 12), DrawString(50, 770, TextHeader), DrawString(50, 750, Repeat('-', 70)) ]
  }

  /** Where the `k`-th contact (from 0) is drawn: going down from 730 in steps of 20 on the
      first page, and from 800 on every later page, each page after the first starting at
      contact 35 + 38 * (page - 1). */
  function RecordY(k: nat): int {
    if k < 35 then 730 - 20 * k else 800 - 20 * ((k - 35) % 38)
  }

  /** The page break rule of lines 110-113: the cursor, once moved down by 20, is below 50. */
  predicate BreaksAfter(k: nat) {
    RecordY(k) - 20 < 50
  }

  /** The events of the `k`-th contact: the line drawn at its height, then a new page if the
      next line would fall below the margin. */
  function RecordEvents(c: Contact, k: nat): seq<PdfEvent> {
    [DrawString(50, RecordY(k), ContactLine(c))] + if BreaksAfter(k) then [ShowPage] else []
  }

  /** The events of all contacts, in order. */
  function Layout(contacts: seq<Contact>): seq<PdfEvent> {
    if contacts == [] then []
    else Layout(contacts[..|contacts| - 1]) + RecordEvents(contacts[|contacts| - 1], |contacts| - 1)
  }

  /** The cursor `y` of `save_to_pdf`: where the next contact goes after contact `k`. */
  lemma NextRecordY(k: nat)
    ensures RecordY(k + 1) == if RecordY(k) - 20 < 50 then 800 else RecordY(k) - 20
  {
    if k >= 35 {
      var m := (k - 35) % 38;
      var q := (k - 35) / 38;
      assert k - 35 == 38 * q + m;
      if m < 37 {
        assert k + 1 - 35 == 38 * q + (m + 1);
        assert (k + 1 - 35) % 38 == m + 1;
      } else {
        assert k + 1 - 35 == 38 * (q + 1);
        assert (k + 1 - 35) % 38 == 0;
      }
    }
  }

  /** `save_to_pdf`: the preamble, then each contact line at the cursor, with the cursor moving
      down 20 after each line and a new page, with the cursor back at 800, once it drops below
      50. */
  method SaveToPdf(contacts: seq<Contact>) returns (events: seq<PdfEvent>)
    ensures events == Preamble() + Layout(contacts)
  {
    events := [SetFont("Helvetica-Bold", 14)];
    events := events + [DrawString(50, 800, "Extracted Contacts")];
    events := events + [SetFont("Helvetica", 12)];
    var y := 770;
    events := events + [DrawString(50, y, "Name | Email | Phone")];
    y := y - 20;
    events := events + [DrawString(50, y, Repeat('-', 70))];
    y := y - 20;
    for i := 0 to |contacts|
      invariant y == RecordY(i)
      invariant events == Preamble() + Layout(contacts[..i])
    {
      assert contacts[..i + 1][..i] == contacts[..i];
      NextRecordY(i);
      var c := contacts[i];
      var line := c.name + " | " + c.email + " | " + c.phone;
      events := events + [DrawString(50, y, line)];
      y := y - 20;
      if y < 50 {
        events := events + [ShowPage];
        y := 800;
      }
    }
    assert contacts[..|contacts|] == contacts;
  }

  /** Every contact line is drawn at x = 50 with 50 <= y <= 800; the first at y = 730. */
  lemma RecordBounds(k: nat)
    ensures 50 <= RecordY(k) <= 800
    ensures RecordY(0) == 730
  {
  }

  /** A page breaks after contact `k` exactly when `k` is the 35th contact or the last of a
      further 38; so the first page holds 35 contacts, every later one 38, and the next
      contact after a break is at the top, y = 800. */
  lemma PageBreaks(k: nat)
    ensures BreaksAfter(k) <==> k == 34 || (k >= 35 && (k - 35) % 38 == 37)
    ensures BreaksAfter(k) ==> RecordY(k + 1) == 800
  {
    NextRecordY(k);
  }

  /** The page contact `k` is drawn on, counting from 0. */
  function PageOf(k: nat): nat {
    if k < 35 then 0 else 1 + (k - 35) / 38
  }

  lemma PageStep(k: nat)
    ensures PageOf(k + 1) == PageOf(k) + if BreaksAfter(k) then 1 else 0
  {
    PageBreaks(k);
    if k >= 35 {
      var m := (k - 35) % 38;
      var q := (k - 35) / 38;
      assert k - 35 == 38 * q + m;
      if m < 37 {
        assert k + 1 - 35 == 38 * q + (m + 1);
        assert (k + 1 - 35) / 38 == q;
      } else {
        assert k + 1 - 35 == 38 * (q + 1);
        assert (k + 1 - 35) / 38 == q + 1;
      }
    }
  }

  /** The number of `showPage` calls among `events`. */
  function ShowPages(events: seq<PdfEvent>): nat {
    if events == [] then 0
    else ShowPages(events[..|events| - 1]) + if events[|events| - 1] == ShowPage then 1 else 0
  }

  /** The texts drawn among `events`, in order. */
  function Drawn(events: seq<PdfEvent>): seq<string> {
    if events == [] then []
    else Drawn(events[..|events| - 1]) + match events[|events| - 1] case DrawString(_, _, t) => [t] case _ => []
  }

  lemma {:induction false} ShowPagesAppend(a: seq<PdfEvent>, b: seq<PdfEvent>)
    ensures ShowPages(a + b) == ShowPages(a) + ShowPages(b)
    decreases |b|
  {
    if b == [] {
      assert a + b == a;
    } else {
      var b' := b[..|b| - 1];
      assert (a + b)[..|a + b| - 1] == a + b';
      assert (a + b)[|a + b| - 1] == b[|b| - 1];
      ShowPagesAppend(a, b');
    }
  }

  lemma {:induction false} DrawnAppend(a: seq<PdfEvent>, b: seq<PdfEvent>)
    ensures Drawn(a + b) == Drawn(a) + Drawn(b)
    decreases |b|
  {
    if b == [] {
      assert a + b == a;
    } else {
      var b' := b[..|b| - 1];
      assert (a + b)[..|a + b| - 1] == a + b';
      assert (a + b)[|a + b| - 1] == b[|b| - 1];
      DrawnAppend(a, b');
    }
  }

  lemma RecordEventsCounts(c: Contact, k: nat)
    ensures ShowPages(RecordEvents(c, k)) == if BreaksAfter(k) then 1 else 0
    ensures Drawn(RecordEvents(c, k)) == [ContactLine(c)]
  {
    var d := DrawString(50, RecordY(k), ContactLine(c));
    assert [d][..0] == [];
    assert ShowPages([d]) == 0 && Drawn([d]) == [ContactLine(c)];
    if BreaksAfter(k) {
      var es := [d, ShowPage];
      assert RecordEvents(c, k) == es;
      assert es[..1] == [d];
    } else {
      assert RecordEvents(c, k) == [d];
    }
  }

  /** After `n` contacts the canvas has turned `PageOf(n)` pages: one `showPage` per full page,
      including one right after the last contact when that contact filled its page. */
  lemma {:induction false} LayoutPages(contacts: seq<Contact>)
    ensures ShowPages(Layout(contacts)) == PageOf(|contacts|)
  {
    if contacts != [] {
      var n := |contacts| - 1;
      LayoutPages(contacts[..n]);
      ShowPagesAppend(Layout(contacts[..n]), RecordEvents(contacts[n], n));
      RecordEventsCounts(contacts[n], n);
      PageStep(n);
    }
  }

  /** The lines drawn after the preamble are the contact lines, one per contact, in order. */
  lemma {:induction false} LayoutDrawn(contacts: seq<Contact>)
    ensures Drawn(Layout(contacts)) == Map(ContactLine, contacts)
  {
    if contacts != [] {
      var n := |contacts| - 1;
      var init, ev := contacts[..n], RecordEvents(contacts[n], n);
      assert Layout(contacts) == Layout(init) + ev;
      LayoutDrawn(init);
      DrawnAppend(Layout(init), ev);
      RecordEventsCounts(contacts[n], n);
      assert contacts == init + [contacts[n]];
      MapAppend(ContactLine, init, [contacts[n]]);
      assert Map(ContactLine, [contacts[n]]) == [ContactLine(contacts[n])];
    }
  }

  /** Every string drawn for a contact is at x = 50 and 50 <= y <= 800. */
  lemma {:induction false} LayoutInBounds(contacts: seq<Contact>)
    ensures forall e :: e in Layout(contacts) && e.DrawString? ==> e.x == 50 && 50 <= e.y <= 800
  {
    if contacts != [] {
      var n := |contacts| - 1;
      LayoutInBounds(contacts[..n]);
      RecordBounds(n);
    }
  }
}
