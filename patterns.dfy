/** The two patterns of EmailScraper/main.py as recognisers of a full match (`re.fullmatch`):
      EMAIL_REGEX  `[a-zA-Z0-9._%+-]+@[a-zA-Z0-9.-]+\.[a-z]{2,}`
      PHONE_REGEX  `(\+?\d{1,4}[\s-]?)?(?:\(?\d{2,4}\)?[\s-]?)?\d{6,10}`
    A full match exists exactly when the string splits into pieces each matched by one part of
    the pattern; that decomposition is what is written here. */
module Patterns {
  import opened Strings

  predicate IsLower(c: char) {
    'a' <= c <= 'z'
  }

  predicate IsAlnum(c: char) {
    IsLower(c) || ('A' <= c <= 'Z') || IsDigit(c)
  }

  /** `[a-zA-Z0-9._%+-]` */
  predicate IsLocalChar(c: char) {
    IsAlnum(c) || c == '.' || c == '_' || c == '%' || c == '+' || c == '-'
  }

  /** `[a-zA-Z0-9.-]` */
  predicate IsDomainChar(c: char) {
    IsAlnum(c) || c == '.' || c == '-'
  }

  predicate AllLocal(s: string) {
    forall k :: 0 <= k < |s| ==> IsLocalChar(s[k])
  }

  predicate AllDomain(s: string) {
    forall k :: 0 <= k < |s| ==> IsDomainChar(s[k])
  }

  predicate AllLower(s: string) {
    forall k :: 0 <= k < |s| ==> IsLower(s[k])
  }

  // ---------------------------------------------------------------- email

  /** `s` is local part `s[..at]`, `@`, domain `s[at + 1..dot]`, `.`, and top-level label
      `s[dot + 1..]`, each piece matching its part of EMAIL_REGEX. */
  predicate EmailSplitAt(s: string, at: nat, dot: nat) {
    && 0 < at && at + 1 < dot && dot + 3 <= |s|
    && s[at] == '@' && s[dot] == '.'
    && AllLocal(s[..at]) && AllDomain(s[at + 1..dot]) && AllLower(s[dot + 1..])
  }

  /** EMAIL_REGEX matches all of `s`. */
  ghost predicate EmailPattern(s: string) {
    exists at: nat, dot: nat :: EmailSplitAt(s, at, dot)
  }

  /** Index of the first `c` in `s`, or `|s|`. */
  function IndexOf(s: string, c: char): (k: nat)
    ensures k <= |s| && (k < |s| ==> s[k] == c) && c !in s[..k]
  {
    if s == [] || s[0] == c then 0
    else
      var k := 1 + IndexOf(s[1..], c);
      assert s[..k] == [s[0]] + s[1..][..k - 1];
      k
  }

  /** Index of the last `c` in `s`, or `|s|` if there is none. */
  function LastIndexOf(s: string, c: char): (k: nat)
    ensures k <= |s| && (k < |s| ==> s[k] == c && c !in s[k + 1..]) && (k == |s| ==> c !in s)
  {
    if s == [] then 0
    else if s[|s| - 1] == c then |s| - 1
    else
      var k := LastIndexOf(s[..|s| - 1], c);
      if k == |s| - 1 then
        assert s == s[..|s| - 1] + [s[|s| - 1]];
        |s|
      else
        assert s[k + 1..] == s[..|s| - 1][k + 1..] + [s[|s| - 1]];
        k
  }

  /** `EMAIL_REGEX.fullmatch(s)`. The local part cannot hold `@` and the top-level label
      cannot hold `.`, so the only candidate split is at the first `@` and the last `.`. */
  function MatchesEmail(s: string): (ok: bool)
    ensures ok <==> EmailPattern(s)
  {
    var at := IndexOf(s, '@');
    var dot := LastIndexOf(s, '.');
    var ok := EmailSplitAt(s, at, dot);
    assert EmailPattern(s) ==> ok by {
      if EmailPattern(s) {
        var at', dot' :| EmailSplitAt(s, at', dot');
        FirstAt(s, at', dot');
        LastDot(s, at', dot');
      }
    }
    ok
  }

  lemma FirstAt(s: string, at: nat, dot: nat)
    requires EmailSplitAt(s, at, dot)
    ensures IndexOf(s, '@') == at
  {
  }

  lemma LastDot(s: string, at: nat, dot: nat)
    requires EmailSplitAt(s, at, dot)
    ensures LastIndexOf(s, '.') == dot
  {
  }

  /** Every string of the form `local@domain.tld` with pieces drawn from the pattern's classes
      is accepted. */
  lemma EmailAccepted(local: string, domain: string, tld: string)
    requires local != [] && AllLocal(local)
    requires domain != [] && AllDomain(domain)
    requires |tld| >= 2 && AllLower(tld)
    ensures MatchesEmail(local + "@" + domain + "." + tld)
  {
    var s := local + "@" + domain + "." + tld;
    var at, dot := |local|, |local| + 1 + |domain|;
    assert s[..at] == local;
    assert s[at + 1..dot] == domain;
    assert s[dot + 1..] == tld;
    assert EmailSplitAt(s, at, dot);
  }

  /** An accepted email holds exactly one `@` and ends in `.` followed by two or more lowercase
      ASCII letters; so a string without `@`, or without such an ending, is rejected. */
  lemma EmailShape(s: string)
    requires MatchesEmail(s)
    ensures Count(s, '@') == 1
    ensures exists dot :: 0 <= dot && dot + 3 <= |s| && s[dot] == '.' && AllLower(s[dot + 1..])
  {
    var at, dot :| EmailSplitAt(s, at, dot);
    SingleAt(s, at, dot);
  }

  lemma SingleAt(s: string, at: nat, dot: nat)
    requires EmailSplitAt(s, at, dot)
    ensures Count(s, '@') == 1
  {
    forall k | 0 <= k < |s| && k != at
      ensures s[k] != '@'
    {
      if k < at {
        assert IsLocalChar(s[..at][k]);
      } else if k < dot {
        assert IsDomainChar(s[at + 1..dot][k - at - 1]);
      } else if k > dot {
        assert IsLower(s[dot + 1..][k - dot - 1]);
      }
    }
    CountSingle(s, '@', at);
  }

  lemma {:induction false} CountSingle(s: string, c: char, i: nat)
    requires i < |s| && s[i] == c
    requires forall k :: 0 <= k < |s| && k != i ==> s[k] != c
    ensures Count(s, c) == 1
  {
    if i == 0 {
      CountAbsent(s[1..], c);
    } else {
      CountSingle(s[1..], c, i - 1);
    }
  }

  // ---------------------------------------------------------------- phone

  /** `[\s-]`: the optional separator after a group. */
  predicate IsPhoneSep(c: char) {
    IsSpace(c) || c == '-'
  }

  function DropLastIf(s: string, drop: bool): string
    requires drop ==> s != []
  {
    if drop then s[..|s| - 1] else s
  }

  /** `(\+?\d{1,4}[\s-]?)?`: empty, or an optional `+`, one to four digits and an optional
      separator. */
  predicate CountryGroup(g: string) {
    g == [] ||
    var a := if g[0] == '+' then g[1..] else g;
    var b := DropLastIf(a, a != [] && IsPhoneSep(a[|a| - 1]));
    1 <= |b| <= 4 && AllDigits(b)
  }

  /** `(?:\(?\d{2,4}\)?[\s-]?)?`: empty, or an optional `(`, two to four digits, an optional `)`
      and an optional separator. */
  predicate AreaGroup(g: string) {
    g == [] ||
    var a := if g[0] == '(' then g[1..] else g;
    var b := DropLastIf(a, a != [] && IsPhoneSep(a[|a| - 1]));
    var c := DropLastIf(b, b != [] && b[|b| - 1] == ')');
    2 <= |c| <= 4 && AllDigits(c)
  }

  /** `\d{6,10}` */
  predicate SubscriberGroup(g: string) {
    6 <= |g| <= 10 && AllDigits(g)
  }

  /** `s` is the country group `s[..i]`, the area group `s[i..j]` and the subscriber digits
      `s[j..]`. */
  predicate PhoneSplitAt(s: string, i: nat, j: nat) {
    i <= j <= |s| && CountryGroup(s[..i]) && AreaGroup(s[i..j]) && SubscriberGroup(s[j..])
  }

  /** `PHONE_REGEX.fullmatch(s)`. */
  predicate MatchesPhone(s: string) {
    exists i: nat, j: nat | i <= j <= |s| :: PhoneSplitAt(s, i, j)
  }

  lemma CountryGroupBound(g: string)
    requires CountryGroup(g)
    ensures |g| <= 6
    ensures AllDigits(g) ==> |g| <= 4
  {
  }

  lemma AreaGroupBound(g: string)
    requires AreaGroup(g)
    ensures |g| <= 7
    ensures AllDigits(g) ==> |g| <= 4 && |g| != 1
  {
  }

  /** An accepted phone is 6 to 23 characters long and ends in at least six digits. */
  lemma PhoneShape(s: string)
    requires MatchesPhone(s)
    ensures 6 <= |s| <= 23
    ensures AllDigits(s[|s| - 6..])
  {
    var i: nat, j: nat :| i <= j <= |s| && PhoneSplitAt(s, i, j);
    CountryGroupBound(s[..i]);
    AreaGroupBound(s[i..j]);
    assert forall k :: |s| - 6 <= k < |s| ==> s[k] == s[j..][k - j];
  }

  /** Any string of six to ten digits is accepted. */
  lemma SubscriberOnlyAccepted(s: string)
    requires 6 <= |s| <= 10 && AllDigits(s)
    ensures MatchesPhone(s)
  {
    assert s[..0] == [] && s[0..0] == [] && s[0..] == s;
    assert PhoneSplitAt(s, 0, 0);
  }

  /** On digits alone the pattern accepts exactly the lengths 6 to 18: up to four country
      digits and four area digits can precede the ten subscriber digits, but an area group
      needs at least two. */
  lemma DigitsAccepted(s: string)
    requires AllDigits(s)
    ensures MatchesPhone(s) <==> 6 <= |s| <= 18
  {
    if MatchesPhone(s) {
      DigitsAcceptedBound(s);
    }
    if 6 <= |s| <= 18 {
      DigitsAcceptedWitness(s);
    }
  }

  lemma DigitsAcceptedBound(s: string)
    requires AllDigits(s) && MatchesPhone(s)
    ensures |s| <= 18
  {
    var i: nat, j: nat :| i <= j <= |s| && PhoneSplitAt(s, i, j);
    assert AllDigits(s[..i]) && AllDigits(s[i..j]);
    CountryGroupBound(s[..i]);
    AreaGroupBound(s[i..j]);
  }

  lemma DigitsAcceptedWitness(s: string)
    requires AllDigits(s) && 6 <= |s| <= 18
    ensures MatchesPhone(s)
  {
    var n := |s|;
    var i, j := if n <= 10 then 0 else if n <= 14 then n - 10 else n - 14, if n <= 10 then 0 else n - 10;
    assert AllDigits(s[..i]) && AllDigits(s[i..j]) && AllDigits(s[j..]);
    assert s[..i] != [] ==> s[..i][0] != '+';
    assert s[i..j] != [] ==> s[i..j][0] != '(';
    assert PhoneSplitAt(s, i, j);
  }

  /** `"+91-9876543210"`: country group `+91-`, no area group, ten subscriber digits. */
  lemma CountryCodeExample(s: string)
    requires s == "+91-9876543210"
    ensures MatchesPhone(s)
  {
    assert s[..4] == "+91-" && s[4..4] == [] && s[4..] == "9876543210";
    assert CountryGroup(s[..4]) by {
      assert "+91-"[1..] == "91-";
      assert "91-"[..2] == "91";
    }
    assert PhoneSplitAt(s, 4, 4);
  }

  /** `"(022)-12345678"`: no country group, area group `(022)-`, eight subscriber digits. */
  lemma AreaCodeExample(t: string)
    requires t == "(022)-12345678"
    ensures MatchesPhone(t)
  {
    assert t[..0] == [] && t[0..6] == "(022)-" && t[6..] == "12345678";
    assert AreaGroup(t[0..6]) by {
      assert "(022)-"[1..] == "022)-";
      assert "022)-"[..4] == "022)";
      assert "022)"[..3] == "022";
    }
    assert PhoneSplitAt(t, 0, 6);
  }

  /** Five digits are too few. */
  lemma ShortPhoneExample(s: string)
    requires s == "12345"
    ensures !MatchesPhone(s)
  {
    if MatchesPhone(s) {
      PhoneShape(s);
    }
  }
}
