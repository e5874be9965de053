/** Python `int(text)` on decimal text, and `str(n)` as its reference inverse. */
module Numbers {
  import opened Wrappers
  import opened Strings

  function DigitValue(c: char): nat
    requires IsDigit(c)
  {
    c as int - '0' as int
  }

  function DigitChar(d: nat): (c: char)
    requires d < 10
    ensures IsDigit(c) && DigitValue(c) == d
  {
    ('0' as int + d) as char
  }

  /** The digit part `int()` accepts: ASCII digits, with single underscores allowed between two
      digits (`"1_000"`), and nothing else. */
  predicate IsDigitText(s: string) {
    && s != []
    && IsDigit(s[0]) && IsDigit(s[|s| - 1])
    && (forall k :: 0 <= k < |s| ==> IsDigit(s[k]) || s[k] == '_')
    && (forall k :: 0 <= k < |s| - 1 ==> s[k] == '_' ==> s[k + 1] != '_')
  }

  /** Value of a digit text read left to right, underscores skipped. */
  function DigitsValue(s: string): nat
    requires forall k :: 0 <= k < |s| ==> IsDigit(s[k]) || s[k] == '_'
  {
    if s == [] then 0
    else if s[|s| - 1] == '_' then DigitsValue(s[..|s| - 1])
    else 10 * DigitsValue(s[..|s| - 1]) + DigitValue(s[|s| - 1])
  }

  /** CPython's default limit on the number of digits `int()` converts from decimal text
      (`sys.int_info.default_max_str_digits`); longer text raises `ValueError`. */
  const MaxStrDigits: nat := 4300

  /** The number of digits in a digit text: its characters other than underscores. */
  function DigitCount(s: string): int {
    |s| - Count(s, '_')
  }

  /** The text after an optional leading `+` or `-` sign. */
  function Unsigned(s: string): string {
    if s != [] && (s[0] == '+' || s[0] == '-') then s[1..] else s
  }

  /** Python `int(s)` for text that has already been stripped: an optional `+` or `-` sign and a
      digit text of at most `MaxStrDigits` digits; anything else is the `ValueError` path,
      `None`. */
  function ParseInt(s: string): (r: Option<int>)
    ensures r.Some? ==> s != [] && (IsDigit(s[0]) || s[0] == '+' || s[0] == '-')
    ensures r.Some? ==> forall k :: 0 < k < |s| ==> IsDigit(s[k]) || s[k] == '_'
    ensures r.Some? ==> DigitCount(Unsigned(s)) <= MaxStrDigits
  {
    if s != [] && (s[0] == '+' || s[0] == '-') then
      var digits := s[1..];
      if IsDigitText(digits) && DigitCount(digits) <= MaxStrDigits then
        var v: int := DigitsValue(digits);
        Some(if s[0] == '-' then -v else v)
      else None
    else if IsDigitText(s) && DigitCount(s) <= MaxStrDigits then Some(DigitsValue(s))
    else None
  }

  /** Python `str(n)` for `n >= 0`. */
  function ShowNat(n: nat): (s: string)
    ensures s != [] && AllDigits(s)
  {
    if n < 10 then [DigitChar(n)] else ShowNat(n / 10) + [DigitChar(n % 10)]
  }

  /** Python `str(n)`. */
  function ShowInt(n: int): string {
    if n < 0 then "-" + ShowNat(-n) else ShowNat(n)
  }

  lemma {:induction false} DigitsValueOfShow(n: nat)
    ensures IsDigitText(ShowNat(n)) && DigitsValue(ShowNat(n)) == n
  {
    var s := ShowNat(n);
    if n >= 10 {
      DigitsValueOfShow(n / 10);
      assert s[..|s| - 1] == ShowNat(n / 10);
    }
  }

  /** The absolute value of `n`. */
  function Abs(n: int): nat {
    if n < 0 then -n else n
  }

  /** `int(str(n)) == n` for every `n` of at most `MaxStrDigits` digits. */
  lemma ParseShow(n: int)
    requires |ShowNat(Abs(n))| <= MaxStrDigits
    ensures ParseInt(ShowInt(n)) == Some(n)
  {
    var s := ShowInt(n);
    var t := ShowNat(Abs(n));
    DigitsValueOfShow(Abs(n));
    CountAbsent(t, '_');
    if n < 0 {
      assert s == "-" + t;
      assert s[0] == '-' && s[1..] == t;
    } else {
      assert IsDigit(s[0]);
    }
  }

  /** More than `MaxStrDigits` digits, underscores not counted, with or without a sign, is the
      `ValueError` path. */
  lemma TooManyDigits(s: string)
    requires IsDigitText(s) && DigitCount(s) > MaxStrDigits
    ensures ParseInt(s) == None && ParseInt("+" + s) == None && ParseInt("-" + s) == None
  {
    assert ("+" + s)[1..] == s && ("-" + s)[1..] == s;
  }

  /** Text holding a character that is neither a digit, an underscore nor a leading sign is the
      `ValueError` path: `int("1 point")` and `int("")` fail. */
  lemma ParseRejects(s: string, k: nat)
    requires k < |s| && !IsDigit(s[k]) && s[k] != '_' && (k > 0 || (s[k] != '+' && s[k] != '-'))
    ensures ParseInt(s) == None
  {
  }

  lemma ParseExamples()
    ensures ParseInt("1_000") == Some(1000)
    ensures ParseInt("-42") == Some(-42)
    ensures ParseInt("1__0") == None
    ensures ParseInt("") == None
  {
    assert "1_000"[..4] == "1_00";
    assert "1_00"[..3] == "1_0";
    assert "1_0"[..2] == "1_";
    assert "1_"[..1] == "1";
    assert "1"[..0] == "";
    assert DigitsValue("1_") == 1;
    assert DigitsValue("1_0") == 10;
    assert DigitsValue("1_00") == 100;
    assert DigitsValue("1_000") == 1000;
    assert IsDigitText("1_000");
    assert "-42"[1..] == "42";
    assert "42"[..1] == "4";
    assert !IsDigitText("1__0") by {
      assert "1__0"[1] == '_' && "1__0"[2] == '_';
    }
  }
}
