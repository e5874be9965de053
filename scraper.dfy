/** The main block of EmailScraper/main.py (lines 117-137): gather the contacts of every input
    file, remove duplicates, and write the four outputs. */
module Scraper {
  import opened Strings
  import opened Seqs
  import opened Contacts
  import opened Dedup
  import opened Extraction
  import opened Writers

  method Run(files: seq<InputFile>)
    returns (contacts: seq<Contact>, text: string, sheet: Worksheet, doc: WordDocument, events: seq<PdfEvent>)
    ensures contacts == RemoveDuplicates(Gathered(files))
    ensures NoDuplicates(contacts) && Elements(contacts) == Elements(Gathered(files))
    ensures forall k :: 0 <= k < |contacts| ==> WellFormed(contacts[k]) && FieldsOnOneLine(contacts[k])
    ensures text == TextDocument(contacts)
    ensures SplitLines(text) == [TextHeader, Repeat('-', 40)] + Map(ContactLine, contacts)
    ensures sheet == Worksheet("Contacts", Table(contacts))
    ensures doc == WordDocument("Extracted Contacts", 1, Table(contacts))
    ensures events == Preamble() + Layout(contacts)
  {
    var all := GatherContacts(files);
    contacts := RemoveDuplicates(all);
    forall k | 0 <= k < |contacts|
      ensures WellFormed(contacts[k]) && FieldsOnOneLine(contacts[k])
    {
      assert contacts[k] in Elements(all);
    }
    text := SaveToText(contacts);
    TextLines(contacts);
    sheet := SaveToExcel(contacts);
    doc := SaveToWord(contacts);
    events := SaveToPdf(contacts);
  }
}
