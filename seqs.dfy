/** Keeping the present entries of a sequence of optional values, in order: the shape shared
    by `extract_contacts` (a line gives a contact or nothing) and `popular_news` (a link gives
    an item or nothing). */
module Seqs {
  import opened Wrappers

  /** `f` applied to each element. */
  function Map<A, B>(f: A -> B, s: seq<A>): (r: seq<B>)
    ensures |r| == |s|
    ensures forall i :: 0 <= i < |s| ==> r[i] == f(s[i])
  {
    seq(|s|, i requires 0 <= i < |s| => f(s[i]))
  }

  lemma MapThree<A, B>(f: A -> B, a: A, b: A, c: A)
    ensures Map(f, [a, b, c]) == [f(a), f(b), f(c)]
  {
    var r := Map(f, [a, b, c]);
    assert r[0] == f(a) && r[1] == f(b) && r[2] == f(c);
  }

  lemma MapAppend<A, B>(f: A -> B, a: seq<A>, b: seq<A>)
    ensures Map(f, a + b) == Map(f, a) + Map(f, b)
  {
  }

  /** The values of the `Some` entries of `opts`, in their order. */
  function Somes<T>(opts: seq<Option<T>>): (r: seq<T>)
    ensures |r| <= |opts|
  {
    if opts == [] then []
    else Somes(opts[..|opts| - 1]) + (match opts[|opts| - 1] case Some(x) => [x] case None => [])
  }

  lemma {:induction false} SomesAppend<T>(a: seq<Option<T>>, b: seq<Option<T>>)
    ensures Somes(a + b) == Somes(a) + Somes(b)
    decreases |b|
  {
    if b == [] {
      assert a + b == a;
    } else {
      var b' := b[..|b| - 1];
      assert (a + b)[..|a + b| - 1] == a + b';
      assert (a + b)[|a + b| - 1] == b[|b| - 1];
      SomesAppend(a, b');
    }
  }

  lemma SomesOne<T>(o: Option<T>)
    ensures Somes([o]) == match o case Some(x) => [x] case None => []
  {
    assert [o][..0] == [];
  }

  /** Extending a prefix by one entry extends its kept values by that entry's value, if any. */
  lemma SomesPrefix<T>(opts: seq<Option<T>>, i: nat)
    requires i < |opts|
    ensures Somes(opts[..i + 1]) == Somes(opts[..i]) + match opts[i] case Some(x) => [x] case None => []
  {
    assert opts[..i + 1] == opts[..i] + [opts[i]];
    SomesAppend(opts[..i], [opts[i]]);
    SomesOne(opts[i]);
  }

  /** `x` is kept exactly when some entry is `Some(x)`. */
  lemma {:induction false} SomesMembership<T>(opts: seq<Option<T>>, x: T)
    ensures x in Somes(opts) <==> Some(x) in opts
  {
    if opts != [] {
      var init := opts[..|opts| - 1];
      SomesMembership(init, x);
      assert opts == init + [opts[|opts| - 1]];
    }
  }

  /** Every kept value comes from an entry, and the kept values keep the entries' order: the
      `k`-th kept value is the entry at `Positions(opts)[k]`, and those positions increase. */
  function Positions<T>(opts: seq<Option<T>>): (ps: seq<nat>)
    ensures |ps| == |Somes(opts)|
    ensures forall k :: 0 <= k < |ps| ==> ps[k] < |opts| && opts[ps[k]] == Some(Somes(opts)[k])
    ensures forall k, l :: 0 <= k < l < |ps| ==> ps[k] < ps[l]
  {
    if opts == [] then []
    else
      var init := opts[..|opts| - 1];
      var ps := Positions(init);
      match opts[|opts| - 1]
      case Some(_) => ps + [|opts| - 1]
      case None => ps
  }

  /** An entry is `None` exactly when its position is not among the kept positions. */
  lemma {:induction false} PositionsComplete<T>(opts: seq<Option<T>>, i: nat)
    requires i < |opts|
    ensures opts[i].Some? <==> i in Positions(opts)
  {
    var init := opts[..|opts| - 1];
    if i < |opts| - 1 {
      PositionsComplete(init, i);
      assert init[i] == opts[i];
    }
  }

  /** The blocks of `blocks` one after the other. */
  function Flatten<T>(blocks: seq<seq<T>>): seq<T> {
    if blocks == [] then [] else Flatten(blocks[..|blocks| - 1]) + blocks[|blocks| - 1]
  }

  lemma {:induction false} FlattenAppend<T>(a: seq<seq<T>>, b: seq<seq<T>>)
    ensures Flatten(a + b) == Flatten(a) + Flatten(b)
    decreases |b|
  {
    if b == [] {
      assert a + b == a;
    } else {
      var b' := b[..|b| - 1];
      assert (a + b)[..|a + b| - 1] == a + b';
      assert (a + b)[|a + b| - 1] == b[|b| - 1];
      FlattenAppend(a, b');
    }
  }

  lemma FlattenOne<T>(b: seq<T>)
    ensures Flatten([b]) == b
  {
    assert [b][..0] == [];
  }

  /** `x` is in the flattening exactly when it is in one of the blocks. */
  lemma {:induction false} FlattenMembership<T>(blocks: seq<seq<T>>, x: T)
    ensures x in Flatten(blocks) <==> exists i :: 0 <= i < |blocks| && x in blocks[i]
  {
    if blocks != [] {
      var init := blocks[..|blocks| - 1];
      FlattenMembership(init, x);
      if exists i :: 0 <= i < |init| && x in init[i] {
        var i :| 0 <= i < |init| && x in init[i];
        assert blocks[i] == init[i];
      }
      if exists i :: 0 <= i < |blocks| && x in blocks[i] {
        var i :| 0 <= i < |blocks| && x in blocks[i];
        if i < |init| {
          assert init[i] == blocks[i];
        }
      }
    }
  }

  /** Every element of the flattening satisfies what every element of every block does. */
  lemma {:induction false} FlattenAll<T>(blocks: seq<seq<T>>, P: T -> bool)
    requires forall i, k :: 0 <= i < |blocks| && 0 <= k < |blocks[i]| ==> P(blocks[i][k])
    ensures forall k :: 0 <= k < |Flatten(blocks)| ==> P(Flatten(blocks)[k])
  {
    if blocks != [] {
      var init := blocks[..|blocks| - 1];
      assert forall i, k :: 0 <= i < |init| && 0 <= k < |init[i]| ==> init[i][k] == blocks[i][k];
      FlattenAll(init, P);
    }
  }
}
