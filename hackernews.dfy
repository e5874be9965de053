/** `popular_news` of hn_scraper.py.py: pair each title link with the vote element at the same
    index, read its points (0 when there is no such element or its text is not an integer),
    and keep the links with at least `min_points` points, in link order. The HTML elements are
    abstracted to their texts and `href` attributes. */
module HackerNews {
  import opened Wrappers
  import opened Strings
  import opened Numbers
  import opened Seqs

  /** A title link: `item.getText()` and `item.get("href", None)`. */
  datatype Link = Link(title: string, href: Option<string>)

  /** One entry of the result: the dictionary with keys `title`, `href` and `points`. */
  datatype News = News(title: string, href: Option<string>, points: int)

  /** `int(votes[idx].getText().replace(" points", "").strip())`, or 0 on `IndexError` (no vote
      text at `idx`) and on `ValueError` (the text is not an integer). */
  function Points(votes: seq<string>, idx: nat): int {
    if idx < |votes| then
      match ParseInt(Strip(RemoveAll(votes[idx], " points")))
      case Some(n) => n
      case None => 0
    else 0
  }

  /** What the link at `idx` contributes: its entry when it has enough points. */
  function Candidate(links: seq<Link>, votes: seq<string>, minPoints: int, idx: nat): Option<News>
    requires idx < |links|
  {
    var points := Points(votes, idx);
    if points >= minPoints then Some(News(links[idx].title, links[idx].href, points)) else None
  }

  function Candidates(links: seq<Link>, votes: seq<string>, minPoints: int): (cs: seq<Option<News>>)
    ensures |cs| == |links|
  {
    seq(|links|, i requires 0 <= i < |links| => Candidate(links, votes, minPoints, i))
  }

  /** The result of `popular_news(links, votes, min_points)`. */
  function Popular(links: seq<Link>, votes: seq<string>, minPoints: int): seq<News> {
    Somes(Candidates(links, votes, minPoints))
  }

  /** `popular_news`. */
  method PopularNews(links: seq<Link>, votes: seq<string>, minPoints: int) returns (popular: seq<News>)
    ensures popular == Popular(links, votes, minPoints)
    ensures |popular| <= |links|
    ensures forall k :: 0 <= k < |popular| ==> popular[k].points >= minPoints
  {
    popular := [];
    for idx := 0 to |links|
      invariant popular == Somes(Candidates(links, votes, minPoints)[..idx])
    {
      CandidatesSnoc(links, votes, minPoints, idx);
      var item := links[idx];
      var title := item.title;
      var href := item.href;
      var points;
      if idx < |votes| {
        var parsed := ParseInt(Strip(RemoveAll(votes[idx], " points")));
        if parsed.Some? {
          points := parsed.value;
        } else {
          points := 0;
        }
      } else {
        points := 0;
      }
      if points >= minPoints {
        popular := popular + [News(title, href, points)];
      }
    }
    assert Candidates(links, votes, minPoints)[..|links|] == Candidates(links, votes, minPoints);
    PopularSelected(links, votes, minPoints);
  }

  lemma CandidatesSnoc(links: seq<Link>, votes: seq<string>, minPoints: int, idx: nat)
    requires idx < |links|
    ensures Somes(Candidates(links, votes, minPoints)[..idx + 1])
            == Somes(Candidates(links, votes, minPoints)[..idx]) +
               match Candidate(links, votes, minPoints, idx) case Some(n) => [n] case None => []
  {
    SomesPrefix(Candidates(links, votes, minPoints), idx);
  }

  /** The indices of the links that made it into the result, in increasing order. */
  function SelectedIndices(links: seq<Link>, votes: seq<string>, minPoints: int): seq<nat> {
    Positions(Candidates(links, votes, minPoints))
  }

  /** The `k`-th entry of the result is the link at index `SelectedIndices(...)[k]`, with its
      own title and href and the points read from the vote at that same index, which reach
      `min_points`; the indices increase, so the result keeps link order. */
  lemma PopularSelected(links: seq<Link>, votes: seq<string>, minPoints: int)
    ensures var r, ix := Popular(links, votes, minPoints), SelectedIndices(links, votes, minPoints);
      && |ix| == |r| <= |links|
      && (forall k :: 0 <= k < |r| ==>
            && ix[k] < |links|
            && r[k] == News(links[ix[k]].title, links[ix[k]].href, Points(votes, ix[k]))
            && r[k].points >= minPoints)
      && (forall k, l :: 0 <= k < l < |ix| ==> ix[k] < ix[l])
  {
    var cs := Candidates(links, votes, minPoints);
    var ix := Positions(cs);
    forall k | 0 <= k < |ix|
      ensures cs[ix[k]] == Candidate(links, votes, minPoints, ix[k])
    {
    }
  }

  /** A link is in the result exactly when its points reach `min_points`. */
  lemma SelectedIff(links: seq<Link>, votes: seq<string>, minPoints: int, idx: nat)
    requires idx < |links|
    ensures idx in SelectedIndices(links, votes, minPoints) <==> Points(votes, idx) >= minPoints
  {
    PositionsComplete(Candidates(links, votes, minPoints), idx);
  }

  /** Missing or unreadable votes count as 0 points, so such a link is kept exactly when
      `min_points <= 0`. */
  lemma ZeroFallback(links: seq<Link>, votes: seq<string>, minPoints: int, idx: nat)
    requires idx < |links|
    requires idx >= |votes| || ParseInt(Strip(RemoveAll(votes[idx], " points"))) == None
    ensures Points(votes, idx) == 0
    ensures idx in SelectedIndices(links, votes, minPoints) <==> minPoints <= 0
  {
    SelectedIff(links, votes, minPoints, idx);
  }

  lemma NumberStripped(n: int)
    ensures IsStripped(ShowInt(n)) && ' ' !in ShowInt(n)
  {
    var s := ShowInt(n);
    if n < 0 {
      assert s[0] == '-';
      assert s[|s| - 1] == ShowNat(-n)[|ShowNat(-n)| - 1];
    }
    assert forall k :: 0 <= k < |s| ==> s[k] == '-' || IsDigit(s[k]);
  }

  /** A vote text `"<n> points"` gives `n` points. */
  lemma PointsOfText(votes: seq<string>, idx: nat, n: int)
    requires idx < |votes| && votes[idx] == ShowInt(n) + " points"
    requires |ShowNat(Abs(n))| <= MaxStrDigits
    ensures Points(votes, idx) == n
  {
    VoteNumber(n);
    ParseShow(n);
  }

  /** Reading the vote text `"<n> points"` comes down to reading `str(n)`. */
  lemma VoteNumber(n: int)
    ensures Strip(RemoveAll(ShowInt(n) + " points", " points")) == ShowInt(n)
  {
    NumberStripped(n);
    RemoveAllKeepsPrefix(ShowInt(n), " points", " points");
    RemoveAllSelf(" points");
    assert ShowInt(n) + [] == ShowInt(n);
    StripOfStripped(ShowInt(n));
  }

  /** A vote count of more than `MaxStrDigits` digits makes `int()` raise, so it counts as 0. */
  lemma HugeVoteIsZero(votes: seq<string>, idx: nat, n: nat)
    requires idx < |votes| && votes[idx] == ShowInt(n) + " points"
    requires |ShowNat(n)| > MaxStrDigits
    ensures Points(votes, idx) == 0
  {
    VoteNumber(n);
    CountAbsent(ShowNat(n), '_');
    DigitsValueOfShow(n);
    TooManyDigits(ShowNat(n));
  }

  /** The singular `"<n> point"` is not rewritten and is not an integer, so it counts as 0. */
  lemma SingularPointIsZero(votes: seq<string>, idx: nat, n: int)
    requires idx < |votes| && votes[idx] == ShowInt(n) + " point"
    ensures Points(votes, idx) == 0
  {
    var s := ShowInt(n) + " point";
    NumberStripped(n);
    RemoveAllKeepsPrefix(ShowInt(n), " point", " points");
    assert RemoveAll(" point", " points") == " point";
    assert IsStripped(s) by {
      assert s[0] == ShowInt(n)[0];
      assert s[|s| - 1] == 't';
    }
    StripOfStripped(s);
    ParseRejects(s, |ShowInt(n)|);
  }
}
