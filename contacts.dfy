/** `extract_contacts` of EmailScraper/main.py: every line of a text that splits into exactly
    three comma-separated fields, whose email and phone pass the two patterns, gives one
    `(name, email, phone)` contact; every other line gives nothing. */
module Contacts {
  import opened Wrappers
  import opened Strings
  import opened Patterns
  import opened Seqs

  /** The `(name, email, phone)` tuple; equality is field by field, as for Python tuples. */
  datatype Contact = Contact(name: string, email: string, phone: string)

  /** `[p.strip() for p in line.split(',')]`: one stripped field per comma-separated piece. */
  function Fields(line: string): (fields: seq<string>)
    ensures |fields| == Count(line, ',') + 1
    ensures forall k :: 0 <= k < |fields| ==> IsStripped(fields[k])
  {
    Map(Strip, Split(line, ','))
  }

  /** The test at line 62: the email fully matches EMAIL_REGEX and the phone, with every `" "`
      removed, fully matches PHONE_REGEX. */
  predicate Accepts(email: string, phone: string) {
    MatchesEmail(email) && MatchesPhone(RemoveAll(phone, " "))
  }

  /** What every contact `extract_contacts` returns satisfies: all three fields stripped, and
      the email and phone accepted. */
  predicate WellFormed(c: Contact) {
    IsStripped(c.name) && IsStripped(c.email) && IsStripped(c.phone) && Accepts(c.email, c.phone)
  }

  /** No field holds a line boundary: the contact was read from a single line. */
  predicate FieldsOnOneLine(c: Contact) {
    NoLineBreak(c.name) && NoLineBreak(c.email) && NoLineBreak(c.phone)
  }

  /** The contact one line yields, if any. A line without exactly two commas yields nothing. */
  function ParseLine(line: string): (r: Option<Contact>)
    ensures Count(line, ',') != 2 ==> r == None
    ensures r.Some? ==> WellFormed(r.value)
  {
    var fields := Fields(line);
    if |fields| != 3 then None
    else if Accepts(fields[1], fields[2]) then Some(Contact(fields[0], fields[1], fields[2]))
    else None
  }

  /** What each line yields, line by line. */
  function Parsed(lines: seq<string>): (ps: seq<Option<Contact>>)
    ensures |ps| == |lines|
  {
    Map(ParseLine, lines)
  }

  /** The contacts of a sequence of lines: what the lines yield, in line order. */
  function ContactsOf(lines: seq<string>): (cs: seq<Contact>)
    ensures |cs| <= |lines|
  {
    Somes(Parsed(lines))
  }

  /** `extract_contacts(text)`. */
  method ExtractContacts(text: string) returns (contacts: seq<Contact>)
    ensures contacts == ContactsOf(SplitLines(text))
    ensures |contacts| <= |SplitLines(text)|
    ensures forall k :: 0 <= k < |contacts| ==> WellFormed(contacts[k])
    ensures forall k :: 0 <= k < |contacts| ==> FieldsOnOneLine(contacts[k])
  {
    contacts := [];
    var lines := SplitLines(text);
    for i := 0 to |lines|
      invariant contacts == ContactsOf(lines[..i])
    {
      ContactsSnoc(lines, i);
      var parts := Fields(lines[i]);
      if |parts| != 3 {
        continue;
      }
      var name, email, phone := parts[0], parts[1], parts[2];
      if MatchesEmail(email) && MatchesPhone(RemoveAll(phone, " ")) {
        contacts := contacts + [Contact(name, email, phone)];
      }
    }
    assert lines[..|lines|] == lines;
    ContactsWellFormed(lines);
    ContactsOnOneLine(lines);
  }

  /** One more line adds what that line yields. */
  lemma ContactsSnoc(lines: seq<string>, i: nat)
    requires i < |lines|
    ensures ContactsOf(lines[..i + 1]) ==
            ContactsOf(lines[..i]) + match ParseLine(lines[i]) case Some(c) => [c] case None => []
  {
    assert lines[..i + 1] == lines[..i] + [lines[i]];
    MapAppend(ParseLine, lines[..i], [lines[i]]);
    SomesAppend(Parsed(lines[..i]), [ParseLine(lines[i])]);
    SomesOne(ParseLine(lines[i]));
  }

  /** The lines are processed independently and in order: the contacts of two blocks of lines
      are those of the first block followed by those of the second. */
  lemma ContactsAppend(a: seq<string>, b: seq<string>)
    ensures ContactsOf(a + b) == ContactsOf(a) + ContactsOf(b)
  {
    MapAppend(ParseLine, a, b);
    SomesAppend(Parsed(a), Parsed(b));
  }

  /** Every contact extracted has stripped fields, a valid email and a valid phone. */
  lemma ContactsWellFormed(lines: seq<string>)
    ensures forall k :: 0 <= k < |ContactsOf(lines)| ==> WellFormed(ContactsOf(lines)[k])
  {
    var ps := Positions(Parsed(lines));
    forall k | 0 <= k < |ContactsOf(lines)|
      ensures WellFormed(ContactsOf(lines)[k])
    {
      assert ParseLine(lines[ps[k]]) == Some(ContactsOf(lines)[k]);
    }
  }

  /** Lines without boundaries, as `splitlines` gives them, yield contacts whose fields hold
      no boundary either. */
  lemma ContactsOnOneLine(lines: seq<string>)
    requires forall i :: 0 <= i < |lines| ==> NoLineBreak(lines[i])
    ensures forall k :: 0 <= k < |ContactsOf(lines)| ==> FieldsOnOneLine(ContactsOf(lines)[k])
  {
    var ps := Positions(Parsed(lines));
    forall k | 0 <= k < |ContactsOf(lines)|
      ensures FieldsOnOneLine(ContactsOf(lines)[k])
    {
      assert ParseLine(lines[ps[k]]) == Some(ContactsOf(lines)[k]);
      ParseLineOnOneLine(lines[ps[k]]);
    }
  }

  /** A line without boundaries yields a contact whose fields hold no boundary. */
  lemma ParseLineOnOneLine(line: string)
    requires NoLineBreak(line) && ParseLine(line).Some?
    ensures FieldsOnOneLine(ParseLine(line).value)
  {
    var parts := Split(line, ',');
    SplitOnOneLine(line, ',');
    StripOnOneLine(parts[0]);
    StripOnOneLine(parts[1]);
    StripOnOneLine(parts[2]);
  }

  /** A contact is extracted exactly when some line parses to it. */
  lemma ContactsMembership(lines: seq<string>, c: Contact)
    ensures c in ContactsOf(lines) <==> exists i :: 0 <= i < |lines| && ParseLine(lines[i]) == Some(c)
  {
    SomesMembership(Parsed(lines), c);
    if exists i :: 0 <= i < |lines| && ParseLine(lines[i]) == Some(c) {
      var i :| 0 <= i < |lines| && ParseLine(lines[i]) == Some(c);
      assert Parsed(lines)[i] == Some(c);
    }
  }

  /** The contacts come out in the order of the lines that gave them: the `k`-th contact is
      what line `LinesUsed(lines)[k]` parses to, those line numbers increase, and a line is
      among them exactly when it parses. */
  function LinesUsed(lines: seq<string>): (used: seq<nat>)
    ensures |used| == |ContactsOf(lines)|
    ensures forall k :: 0 <= k < |used| ==>
              used[k] < |lines| && ParseLine(lines[used[k]]) == Some(ContactsOf(lines)[k])
    ensures forall k, l :: 0 <= k < l < |used| ==> used[k] < used[l]
  {
    Positions(Parsed(lines))
  }

  lemma LinesUsedComplete(lines: seq<string>, i: nat)
    requires i < |lines|
    ensures ParseLine(lines[i]).Some? <==> i in LinesUsed(lines)
  {
    PositionsComplete(Parsed(lines), i);
  }

  /** A line whose comma split does not give exactly three fields contributes nothing, wherever
      it stands. */
  lemma MalformedLineIgnored(before: seq<string>, line: string, after: seq<string>)
    requires |Split(line, ',')| != 3
    ensures ContactsOf(before + [line] + after) == ContactsOf(before + after)
  {
    MalformedLineNone(line);
    SingleLine(line);
    ContactsAppend(before, [line]);
    ContactsAppend(before + [line], after);
    ContactsAppend(before, after);
  }

  lemma MalformedLineNone(line: string)
    requires |Split(line, ',')| != 3
    ensures ParseLine(line) == None
  {
  }

  /** A single line gives at most its own contact. */
  lemma SingleLine(line: string)
    ensures ContactsOf([line]) == match ParseLine(line) case Some(c) => [c] case None => []
  {
    assert Parsed([line]) == [ParseLine(line)];
    SomesOne(ParseLine(line));
  }

  /** A line built from three comma-free pieces gives the contact of the three stripped pieces
      when the stripped email and phone pass, and nothing otherwise. The phone kept is the
      stripped piece itself, inner spaces included, not the space-free text that was tested. */
  lemma ParseJoined(name: string, email: string, phone: string)
    requires ',' !in name && ',' !in email && ',' !in phone
    ensures ParseLine(name + "," + email + "," + phone) ==
            if Accepts(Strip(email), Strip(phone)) then Some(Contact(Strip(name), Strip(email), Strip(phone)))
            else None
  {
    FieldsOfThree(name, email, phone);
    ParseFields(name + "," + email + "," + phone, Strip(name), Strip(email), Strip(phone));
  }

  /** A line of three fields gives their contact when the email and phone pass. */
  lemma ParseFields(line: string, name: string, email: string, phone: string)
    requires Fields(line) == [name, email, phone]
    ensures ParseLine(line) == if Accepts(email, phone) then Some(Contact(name, email, phone)) else None
  {
  }

  lemma FieldsOfThree(name: string, email: string, phone: string)
    requires ',' !in name && ',' !in email && ',' !in phone
    ensures Fields(name + "," + email + "," + phone) == [Strip(name), Strip(email), Strip(phone)]
  {
    SplitThree(name, email, phone);
    MapThree(Strip, name, email, phone);
  }

  lemma SplitThree(name: string, email: string, phone: string)
    requires ',' !in name && ',' !in email && ',' !in phone
    ensures Split(name + "," + email + "," + phone, ',') == [name, email, phone]
  {
    JoinThree(name, email, phone);
    SplitJoin([name, email, phone], ',');
  }

  lemma JoinThree(a: string, b: string, c: string)
    ensures Join([a, b, c], [',']) == a + "," + b + "," + c
  {
    assert [a, b, c][1..] == [b, c];
    assert [b, c][1..] == [c];
    assert Join([b, c], [',']) == b + [','] + c;
  }

  lemma NoSpaceKept(s: string)
    requires ' ' !in s
    ensures RemoveAll(s, " ") == s
  {
    RemoveCharAbsent(s, ' ');
  }

  /** Removing the spaces of a phone drops exactly the spaces: two space-free pieces around one
      space are tested joined. */
  lemma SpaceDropped(a: string, b: string)
    requires ' ' !in a && ' ' !in b
    ensures RemoveAll(a + " " + b, " ") == a + b
  {
    var sp := [' '];
    RemoveCharAppend(a + sp, b, ' ');
    RemoveCharAppend(a, sp, ' ');
    RemoveCharOne(' ', ' ');
    NoSpaceKept(a);
    NoSpaceKept(b);
    assert RemoveAll(a + sp, sp) == a;
    assert RemoveAll(a + sp + b, sp) == a + b;
  }

  /** The phone is tested without its spaces but stored with them: a line whose phone is
      `a + " " + b` is accepted when `a + b` passes PHONE_REGEX, and the contact keeps
      `a + " " + b`. */
  lemma PhoneStoredWithSpaces(name: string, email: string, a: string, b: string)
    requires IsStripped(name) && IsStripped(email) && IsStripped(a + " " + b)
    requires ',' !in name && ',' !in email && ',' !in a && ',' !in b
    requires ' ' !in a && ' ' !in b
    requires MatchesEmail(email) && MatchesPhone(a + b)
    ensures ParseLine(name + "," + email + "," + a + " " + b) == Some(Contact(name, email, a + " " + b))
  {
    var phone := a + " " + b;
    assert name + "," + email + "," + a + " " + b == name + "," + email + "," + phone;
    assert ',' !in phone;
    ParseJoined(name, email, phone);
    StripOfStripped(name);
    StripOfStripped(email);
    StripOfStripped(phone);
    SpaceDropped(a, b);
  }
}
