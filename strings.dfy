/** Python's string primitives that both scrapers rely on, written out on `seq<char>`:
    `str.isspace`, `str.strip`, `str.split(sep)`, `sep.join`, `str.splitlines`,
    `str.replace(pat, "")` and `c * n`. */
module Strings {

  /** Python `str.isspace()`: the characters `str.strip()` removes and the regex class `\s` matches. */
  predicate IsSpace(c: char) {
    || ('\t' <= c <= '\r')
    || ('\U{1C}' <= c <= ' ')
    || c == '\U{85}' || c == '\U{A0}' || c == '\U{1680}'
    || ('\U{2000}' <= c <= '\U{200A}')
    || c == '\U{2028}' || c == '\U{2029}' || c == '\U{202F}' || c == '\U{205F}' || c == '\U{3000}'
  }

  /** The line boundaries of Python `str.splitlines()` (`"\r\n"` counts as one boundary). */
  predicate IsLineBreak(c: char) {
    || ('\n' <= c <= '\r')
    || ('\U{1C}' <= c <= '\U{1E}')
    || c == '\U{85}' || c == '\U{2028}' || c == '\U{2029}'
  }

  predicate IsDigit(c: char) {
    '0' <= c <= '9'
  }

  predicate AllDigits(s: string) {
    forall k :: 0 <= k < |s| ==> IsDigit(s[k])
  }

  predicate AllSpace(s: string) {
    forall k :: 0 <= k < |s| ==> IsSpace(s[k])
  }

  predicate NoLineBreak(s: string) {
    forall k :: 0 <= k < |s| ==> !IsLineBreak(s[k])
  }

  /** A string `str.strip()` leaves unchanged: empty, or non-blank at both ends. */
  predicate IsStripped(s: string) {
    s == [] || (!IsSpace(s[0]) && !IsSpace(s[|s| - 1]))
  }

  /** Number of occurrences of `c` in `s`. */
  function Count(s: string, c: char): nat {
    if s == [] then 0 else (if s[0] == c then 1 else 0) + Count(s[1..], c)
  }

  /** Occurrences add up over concatenation. */
  lemma {:induction false} CountAppend(s: string, t: string, c: char)
    ensures Count(s + t, c) == Count(s, c) + Count(t, c)
  {
    if s == [] {
      assert s + t == t;
    } else {
      assert (s + t)[1..] == s[1..] + t;
      CountAppend(s[1..], t, c);
    }
  }

  lemma {:induction false} CountAbsent(s: string, c: char)
    ensures c !in s <==> Count(s, c) == 0
  {
    if s != [] {
      CountAbsent(s[1..], c);
      assert s == [s[0]] + s[1..];
    }
  }

  /** `c * n` for a one-character string `c`. */
  function Repeat(c: char, n: nat): (r: string)
    ensures |r| == n && forall k :: 0 <= k < n ==> r[k] == c
  {
    seq(n, _ => c)
  }

  // ---------------------------------------------------------------- strip

  function StripLeft(s: string): (r: string)
    ensures |r| <= |s| && r == s[|s| - |r|..]
    ensures r == [] || !IsSpace(r[0])
    ensures AllSpace(s[..|s| - |r|])
  {
    if s != [] && IsSpace(s[0]) then
      var t := s[1..];
      var r := StripLeft(t);
      assert s[|s| - |r|..] == t[|t| - |r|..];
      assert forall k :: 0 < k < |s| - |r| ==> s[k] == t[..|t| - |r|][k - 1];
      r
    else
      s
  }

  function StripRight(s: string): (r: string)
    ensures |r| <= |s| && r == s[..|r|]
    ensures r == [] || !IsSpace(r[|r| - 1])
    ensures AllSpace(s[|r|..])
  {
    if s != [] && IsSpace(s[|s| - 1]) then
      var t := s[..|s| - 1];
      var r := StripRight(t);
      assert t[..|r|] == s[..|r|];
      assert s[|r|..] == t[|r|..] + [s[|s| - 1]];
      r
    else
      assert s[|s|..] == [];
      s
  }

  /** Python `str.strip()`: `s` with its leading and trailing whitespace removed. */
  function Strip(s: string): (r: string)
    ensures IsStripped(r)
  {
    StripRight(StripLeft(s))
  }

  /** Stripping cuts off characters and adds none, so it adds no line boundary. */
  lemma StripOnOneLine(s: string)
    requires NoLineBreak(s)
    ensures NoLineBreak(Strip(s))
  {
    var l := StripLeft(s);
    assert l == s[|s| - |l|..|s|];
    SliceOnOneLine(s, |s| - |l|, |s|);
    var r := StripRight(l);
    assert r == l[0..|r|];
    SliceOnOneLine(l, 0, |r|);
  }

  lemma SliceOnOneLine(s: string, i: nat, j: nat)
    requires i <= j <= |s| && NoLineBreak(s)
    ensures NoLineBreak(s[i..j])
  {
    assert forall k :: 0 <= k < j - i ==> s[i..j][k] == s[i + k];
  }

  /** What `str.strip()` keeps is the slice `s[i..i + |Strip(s)|]`, and everything it cuts off
      on either side is whitespace. */
  lemma StripIsSlice(s: string)
    ensures exists i :: 0 <= i <= |s| - |Strip(s)| && Strip(s) == s[i..i + |Strip(s)|]
                        && AllSpace(s[..i]) && AllSpace(s[i + |Strip(s)|..])
  {
    var l := StripLeft(s);
    var i := |s| - |l|;
    var r := StripRight(l);
    SliceOfSuffix(s, i, |r|);
    assert r == Strip(s);
  }

  lemma SliceOfSuffix(s: string, i: nat, n: nat)
    requires i + n <= |s|
    ensures s[i..][..n] == s[i..i + n] && s[i..][n..] == s[i + n..]
  {
  }

  lemma StripOfStripped(s: string)
    requires IsStripped(s)
    ensures Strip(s) == s
  {
  }

  /** `str.strip()` is idempotent. */
  lemma StripIdempotent(s: string)
    ensures Strip(Strip(s)) == Strip(s)
  {
    StripOfStripped(Strip(s));
  }

  lemma {:induction false} StripLeftSkipsSpaces(p: string, s: string)
    requires AllSpace(p)
    ensures StripLeft(p + s) == StripLeft(s)
  {
    if p != [] {
      assert (p + s)[1..] == p[1..] + s;
      StripLeftSkipsSpaces(p[1..], s);
    } else {
      assert p + s == s;
    }
  }

  lemma {:induction false} StripRightSkipsSpaces(s: string, q: string)
    requires AllSpace(q)
    ensures StripRight(s + q) == StripRight(s)
  {
    if q != [] {
      assert (s + q)[..|s + q| - 1] == s + q[..|q| - 1];
      StripRightSkipsSpaces(s, q[..|q| - 1]);
    } else {
      assert s + q == s;
    }
  }

  /** Stripping undoes padding a stripped string with whitespace on either side. */
  lemma StripPadded(p: string, s: string, q: string)
    requires AllSpace(p) && IsStripped(s) && AllSpace(q)
    ensures Strip(p + s + q) == s
  {
    assert p + s + q == p + (s + q);
    StripLeftSkipsSpaces(p, s + q);
    if s == [] {
      assert s + q == q;
      StripRightSkipsSpaces([], q);
      assert StripLeft(q) == [];
    } else {
      assert (s + q)[0] == s[0];
      assert StripLeft(s + q) == s + q;
      StripRightSkipsSpaces(s, q);
      assert StripRight(s) == s;
    }
  }

  // ---------------------------------------------------------------- split / join

  /** Python `sep.join(parts)`. */
  function Join(parts: seq<string>, sep: string): string {
    if parts == [] then ""
    else if |parts| == 1 then parts[0]
    else parts[0] + sep + Join(parts[1..], sep)
  }

  /** Python `s.split(sep)` for a one-character separator: the pieces between separators,
      one more piece than there are separators, none holding the separator. */
  function Split(s: string, sep: char): (parts: seq<string>)
    ensures |parts| == Count(s, sep) + 1
    ensures forall k :: 0 <= k < |parts| ==> sep !in parts[k]
  {
    if s == [] then [""]
    else if s[0] == sep then [""] + Split(s[1..], sep)
    else
      var rest := Split(s[1..], sep);
      [[s[0]] + rest[0]] + rest[1..]
  }

  /** The pieces of a split are cut from the string, so none holds a line boundary when the
      string holds none. */
  lemma {:induction false} SplitOnOneLine(s: string, sep: char)
    requires NoLineBreak(s)
    ensures forall k :: 0 <= k < |Split(s, sep)| ==> NoLineBreak(Split(s, sep)[k])
  {
    if s != [] {
      assert forall k :: 0 <= k < |s| - 1 ==> s[1..][k] == s[k + 1];
      SplitOnOneLine(s[1..], sep);
      if s[0] != sep {
        var rest := Split(s[1..], sep);
        var first := [s[0]] + rest[0];
        assert forall k :: 0 < k < |first| ==> first[k] == rest[0][k - 1];
      }
    }
  }

  /** Joining the pieces of a split with the separator gives back the string. */
  lemma {:induction false} JoinSplit(s: string, sep: char)
    ensures Join(Split(s, sep), [sep]) == s
  {
    if s == [] {
    } else if s[0] == sep {
      JoinSplit(s[1..], sep);
      assert s == [sep] + s[1..];
    } else {
      var rest := Split(s[1..], sep);
      JoinSplit(s[1..], sep);
      if |rest| == 1 {
        assert s == [s[0]] + rest[0];
      } else {
        assert Join(rest, [sep]) == rest[0] + [sep] + Join(rest[1..], [sep]);
        assert s == [s[0]] + s[1..];
      }
    }
  }

  lemma SplitOfNoSep(s: string, sep: char)
    requires sep !in s
    ensures Split(s, sep) == [s]
  {
    CountAbsent(s, sep);
    JoinSplit(s, sep);
  }

  /** Splitting `a + sep + b`, where `a` holds no separator, gives `a` and then the pieces of `b`. */
  lemma {:induction false} SplitAfterSep(a: string, sep: char, b: string)
    requires sep !in a
    ensures Split(a + [sep] + b, sep) == [a] + Split(b, sep)
  {
    if a == [] {
      assert a + [sep] + b == [sep] + b;
      assert ([sep] + b)[1..] == b;
    } else {
      assert (a + [sep] + b)[1..] == a[1..] + [sep] + b;
      SplitAfterSep(a[1..], sep, b);
      assert a == [a[0]] + a[1..];
    }
  }

  /** Splitting a join of separator-free pieces gives the pieces back. */
  lemma {:induction false} SplitJoin(parts: seq<string>, sep: char)
    requires parts != []
    requires forall k :: 0 <= k < |parts| ==> sep !in parts[k]
    ensures Split(Join(parts, [sep]), sep) == parts
  {
    if |parts| == 1 {
      SplitOfNoSep(parts[0], sep);
    } else {
      SplitJoin(parts[1..], sep);
      SplitAfterSep(parts[0], sep, Join(parts[1..], [sep]));
      assert parts == [parts[0]] + parts[1..];
    }
  }

  // ---------------------------------------------------------------- splitlines

  /** Index of the first line boundary in `s`, or `|s|` if there is none. */
  function LineEnd(s: string): (k: nat)
    ensures k <= |s| && (k < |s| ==> IsLineBreak(s[k])) && NoLineBreak(s[..k])
  {
    if s == [] || IsLineBreak(s[0]) then 0
    else
      var k := 1 + LineEnd(s[1..]);
      assert s[..k] == [s[0]] + s[1..][..k - 1];
      k
  }

  /** Width of the boundary at `k`: two for `"\r\n"`, one otherwise. */
  function BreakWidth(s: string, k: nat): nat
    requires k < |s|
  {
    if s[k] == '\r' && k + 1 < |s| && s[k + 1] == '\n' then 2 else 1
  }

  /** Python `str.splitlines()`: the lines of `s` without their boundaries; an empty string has
      no lines and a final boundary does not start a new line. */
  function SplitLines(s: string): (lines: seq<string>)
    ensures |lines| <= |s|
    ensures forall i :: 0 <= i < |lines| ==> NoLineBreak(lines[i])
    decreases |s|
  {
    if s == [] then []
    else
      var k := LineEnd(s);
      if k == |s| then [s] else [s[..k]] + SplitLines(s[k + BreakWidth(s, k)..])
  }

  /** Each line followed by `"\n"`, concatenated: `"".join(l + "\n" for l in lines)`. */
  function Terminated(lines: seq<string>): string {
    if lines == [] then "" else lines[0] + "\n" + Terminated(lines[1..])
  }

  lemma {:induction false} TerminatedAppend(a: seq<string>, b: seq<string>)
    ensures Terminated(a + b) == Terminated(a) + Terminated(b)
  {
    if a == [] {
      assert a + b == b;
    } else {
      assert (a + b)[1..] == a[1..] + b;
      TerminatedAppend(a[1..], b);
    }
  }

  /** The lines of a text whose first part ends in `"\n"` are the lines of that part followed by
      the lines of the rest: a boundary at the very end cannot join with what follows. */
  lemma {:induction false} SplitLinesAppend(a: string, b: string)
    requires a != [] && a[|a| - 1] == '\n'
    ensures SplitLines(a + b) == SplitLines(a) + SplitLines(b)
    decreases |a|
  {
    var k := LineEnd(a);
    LineEndAtMost(a, |a| - 1);
    var w := BreakWidth(a, k);
    var head, tail := a[..k], a[k + w..];
    SplitLinesFirst(a, b, k, w);
    if tail == [] {
      assert tail + b == b;
    } else {
      assert tail[|tail| - 1] == a[|a| - 1];
      SplitLinesAppend(tail, b);
      Regroup(SplitLines(a), [head], SplitLines(tail), SplitLines(b), SplitLines(a + b), SplitLines(tail + b));
    }
  }

  /** The first line of `a + b` is the first line of `a` when `a` holds a boundary that is
      not its last character's `'\r'`. */
  lemma SplitLinesFirst(a: string, b: string, k: nat, w: nat)
    requires k == LineEnd(a) && k < |a| && (k < |a| - 1 || a[k] != '\r')
    requires w == BreakWidth(a, k)
    ensures SplitLines(a) == [a[..k]] + SplitLines(a[k + w..])
    ensures SplitLines(a + b) == [a[..k]] + SplitLines(a[k + w..] + b)
  {
    LineEndPrefix(a, b);
    assert BreakWidth(a + b, k) == w;
    SliceOfAppend(a, b, k, k + w);
  }

  lemma Regroup<T>(whole: seq<T>, first: seq<T>, rest: seq<T>, extra: seq<T>, both: seq<T>, restExtra: seq<T>)
    requires whole == first + rest && both == first + restExtra && restExtra == rest + extra
    ensures both == whole + extra
  {
  }

  lemma SliceOfAppend(a: string, b: string, k: nat, j: nat)
    requires k <= j <= |a|
    ensures (a + b)[..k] == a[..k] && (a + b)[j..] == a[j..] + b
  {
  }

  lemma {:induction false} LineEndAtMost(s: string, i: nat)
    requires i < |s| && IsLineBreak(s[i])
    ensures LineEnd(s) <= i
  {
    if !IsLineBreak(s[0]) {
      LineEndAtMost(s[1..], i - 1);
    }
  }

  /** A boundary inside `a` is found before anything appended to `a` is looked at. */
  lemma {:induction false} LineEndPrefix(a: string, b: string)
    requires LineEnd(a) < |a|
    ensures LineEnd(a + b) == LineEnd(a)
  {
    if !IsLineBreak(a[0]) {
      assert (a + b)[1..] == a[1..] + b;
      LineEndPrefix(a[1..], b);
    }
  }

  /** A line without boundaries followed by `"\n"` is exactly one line. */
  lemma TerminatedLine(l: string)
    requires NoLineBreak(l)
    ensures SplitLines(l + "\n") == [l]
  {
    var s := l + "\n";
    assert s[..|l|] == l;
    assert LineEnd(s) == |l| by {
      LineEndOfLine(l, "\n");
    }
    assert s[|l| + BreakWidth(s, |l|)..] == [];
  }

  lemma {:induction false} LineEndOfLine(l: string, rest: string)
    requires NoLineBreak(l) && rest != [] && IsLineBreak(rest[0])
    ensures LineEnd(l + rest) == |l|
  {
    if l != [] {
      assert (l + rest)[1..] == l[1..] + rest;
      LineEndOfLine(l[1..], rest);
    } else {
      assert l + rest == rest;
    }
  }

  /** `str.splitlines()` undoes `Terminated` on lines without boundaries. */
  lemma {:induction false} SplitLinesTerminated(lines: seq<string>)
    requires forall i :: 0 <= i < |lines| ==> NoLineBreak(lines[i])
    ensures SplitLines(Terminated(lines)) == lines
  {
    if lines != [] {
      var head := lines[0] + "\n";
      assert Terminated(lines) == head + Terminated(lines[1..]);
      SplitLinesAppend(head, Terminated(lines[1..]));
      TerminatedLine(lines[0]);
      SplitLinesTerminated(lines[1..]);
      assert lines == [lines[0]] + lines[1..];
    }
  }

  // ---------------------------------------------------------------- replace

  /** `pat` occurs in `s` starting at `i`. */
  predicate OccursAt(s: string, pat: string, i: nat) {
    i + |pat| <= |s| && s[i..i + |pat|] == pat
  }

  /** Python `s.replace(pat, "")`: scanning left to right, every non-overlapping occurrence of
      `pat` is cut out. Nothing is added, and a string in which `pat` does not occur is
      returned unchanged. */
  function RemoveAll(s: string, pat: string): (r: string)
    requires pat != []
    ensures |r| <= |s|
    decreases |s|
  {
    if |s| < |pat| then s
    else if s[..|pat|] == pat then RemoveAll(s[|pat|..], pat)
    else [s[0]] + RemoveAll(s[1..], pat)
  }

  lemma {:induction false} RemoveAllAbsent(s: string, pat: string)
    requires pat != []
    requires forall i :: 0 <= i < |s| ==> !OccursAt(s, pat, i)
    ensures RemoveAll(s, pat) == s
    decreases |s|
  {
    if |s| >= |pat| {
      assert !OccursAt(s, pat, 0);
      forall i | 0 <= i < |s| - 1
        ensures !OccursAt(s[1..], pat, i)
      {
        if i + |pat| <= |s| - 1 {
          assert s[i + 1..i + 1 + |pat|] == s[1..][i..i + |pat|];
          assert !OccursAt(s, pat, i + 1);
        }
      }
      RemoveAllAbsent(s[1..], pat);
      assert s == [s[0]] + s[1..];
    }
  }

  /** Removing a single character: the characters of a one-character string. */
  lemma RemoveCharOne(d: char, c: char)
    ensures RemoveAll([d], [c]) == if d == c then [] else [d]
  {
    assert [d][..1] == [d];
    assert [d][1..] == [];
  }

  /** Removing a single character works piece by piece. */
  lemma {:induction false} RemoveCharAppend(s: string, t: string, c: char)
    ensures RemoveAll(s + t, [c]) == RemoveAll(s, [c]) + RemoveAll(t, [c])
  {
    if s == [] {
      assert s + t == t;
    } else {
      assert (s + t)[1..] == s[1..] + t;
      assert (s + t)[..1] == [s[0]];
      RemoveCharAppend(s[1..], t, c);
    }
  }

  lemma RemoveCharAbsent(s: string, c: char)
    requires c !in s
    ensures RemoveAll(s, [c]) == s
  {
    forall i | 0 <= i < |s|
      ensures !OccursAt(s, [c], i)
    {
      assert i + 1 <= |s| && s[i..i + 1] == [s[i]];
    }
    RemoveAllAbsent(s, [c]);
  }

  /** After removing a single character, none of it is left, and every other character is kept. */
  lemma {:induction false} RemoveCharGone(s: string, c: char)
    ensures c !in RemoveAll(s, [c])
    ensures |RemoveAll(s, [c])| == |s| - Count(s, c)
  {
    if s != [] {
      RemoveCharGone(s[1..], c);
      assert s[..1] == [s[0]];
    }
  }

  /** A prefix that cannot start an occurrence of `pat` is kept as it is. */
  lemma {:induction false} RemoveAllKeepsPrefix(x: string, y: string, pat: string)
    requires pat != [] && pat[0] !in x
    ensures RemoveAll(x + y, pat) == x + RemoveAll(y, pat)
  {
    if x == [] {
      assert x + y == y;
    } else {
      var s := x + y;
      assert s[0] == x[0];
      assert s[1..] == x[1..] + y;
      RemoveAllKeepsPrefix(x[1..], y, pat);
      if |s| >= |pat| {
        assert s[..|pat|][0] == x[0];
        assert s[..|pat|] != pat;
        assert RemoveAll(s, pat) == [s[0]] + RemoveAll(s[1..], pat);
      } else {
        assert RemoveAll(y, pat) == y;
        assert RemoveAll(x[1..] + y, pat) == x[1..] + y;
      }
    }
  }

  lemma RemoveAllSelf(pat: string)
    requires pat != []
    ensures RemoveAll(pat, pat) == []
  {
    assert pat[..|pat|] == pat;
    assert pat[|pat|..] == [];
  }
}
