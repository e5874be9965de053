/** `list(set(all_contacts))` of EmailScraper/main.py: the contacts without repetitions. Python
    promises nothing about the order of the result; the definition here keeps first
    occurrences in input order, which is one of the orders `list(set(...))` may produce. */
module Dedup {
  predicate NoDuplicates<T(==)>(s: seq<T>) {
    forall i, j :: 0 <= i < j < |s| ==> s[i] != s[j]
  }

  /** The set of elements of `s`: what `set(s)` builds. */
  function Elements<T(==)>(s: seq<T>): set<T> {
    set x | x in s
  }

  /** The elements of `s`, each once. */
  function RemoveDuplicates<T(==)>(s: seq<T>): (r: seq<T>)
    ensures NoDuplicates(r)
    ensures Elements(r) == Elements(s)
    ensures |r| <= |s|
  {
    if s == [] then []
    else
      var init := s[..|s| - 1];
      var r := RemoveDuplicates(init);
      var x := s[|s| - 1];
      assert s == init + [x];
      assert Elements(s) == Elements(init) + {x};
      if x in r then r
      else
        assert Elements(r + [x]) == Elements(r) + {x};
        r + [x]
  }

  /** A sequence without repetitions is left as it is. */
  lemma {:induction false} DistinctUnchanged<T>(s: seq<T>)
    requires NoDuplicates(s)
    ensures RemoveDuplicates(s) == s
  {
    if s != [] {
      var init := s[..|s| - 1];
      DistinctUnchanged(init);
      assert s[|s| - 1] !in init by {
        forall i | 0 <= i < |init|
          ensures init[i] != s[|s| - 1]
        {
          assert init[i] == s[i];
        }
      }
      assert s == init + [s[|s| - 1]];
    }
  }

  /** Removing duplicates twice is removing them once. */
  lemma Idempotent<T>(s: seq<T>)
    ensures RemoveDuplicates(RemoveDuplicates(s)) == RemoveDuplicates(s)
  {
    DistinctUnchanged(RemoveDuplicates(s));
  }

  /** A sequence without repetitions is as long as its set of elements. */
  lemma {:induction false} DistinctLength<T>(s: seq<T>)
    requires NoDuplicates(s)
    ensures |Elements(s)| == |s|
  {
    if s != [] {
      var init := s[..|s| - 1];
      var last := s[|s| - 1];
      DistinctLength(init);
      assert last !in init by {
        forall i | 0 <= i < |init|
          ensures init[i] != last
        {
          assert init[i] == s[i];
        }
      }
      assert s == init + [last];
      assert Elements(s) == Elements(init) + {last};
    }
  }

  /** The result holds exactly as many contacts as there are different ones in the input. */
  lemma Length<T>(s: seq<T>)
    ensures |RemoveDuplicates(s)| == |Elements(s)|
  {
    var r := RemoveDuplicates(s);
    DistinctLength(r);
  }

  /** Elements already present add nothing: a second document repeating contacts of the first
      leaves the result unchanged. */
  lemma {:induction false} Absorbs<T>(s: seq<T>, t: seq<T>)
    requires forall k :: 0 <= k < |t| ==> t[k] in s
    ensures RemoveDuplicates(s + t) == RemoveDuplicates(s)
    decreases |t|
  {
    if t == [] {
      assert s + t == s;
    } else {
      var t' := t[..|t| - 1];
      assert (s + t)[..|s + t| - 1] == s + t';
      assert (s + t)[|s + t| - 1] == t[|t| - 1];
      Absorbs(s, t');
      assert t[|t| - 1] in Elements(s);
      assert t[|t| - 1] in RemoveDuplicates(s + t');
    }
  }

  /** In particular, reading the same contacts twice changes nothing. */
  lemma Doubled<T>(s: seq<T>)
    ensures RemoveDuplicates(s + s) == RemoveDuplicates(s)
  {
    Absorbs(s, s);
  }
}
