/** The rules for the root comments shown: newest first, cut to the number
    of roots currently revealed, with a "load more" control while some are
    hidden. */
module TopLevel {
  import opened Forest

  /** Non-increasing in creation time. */
  predicate NewestFirst(s: seq<Comment>)
  {
    forall i, j :: 0 <= i < j < |s| ==> s[i].createdAt >= s[j].createdAt
  }

  /** Two distinct comments of `s` never share a creation time. */
  ghost predicate TimesDetermine(s: seq<Comment>)
  {
    forall x, y :: x in s && y in s && x.createdAt == y.createdAt ==> x == y
  }

  /** Places `c` before the first comment that is not newer than it. */
  function InsertNewestFirst(c: Comment, s: seq<Comment>): (r: seq<Comment>)
    requires NewestFirst(s)
    ensures NewestFirst(r)
    ensures multiset(r) == multiset(s) + multiset{c}
    ensures r[0] == c || (s != [] && r[0] == s[0])
  {
    if s == [] then [c]
    else if s[0].createdAt <= c.createdAt then [c] + s
    else
      var rest := InsertNewestFirst(c, s[1..]);
      assert s == [s[0]] + s[1..];
      assert forall k :: 0 <= k < |rest| ==> s[0].createdAt >= rest[0].createdAt >= rest[k].createdAt;
      [s[0]] + rest
  }

  /** The root comments ordered newest first by creation time. Comments with
      equal times keep their arrival order, as the stable array sort does. */
  function SortNewestFirst(s: seq<Comment>): (r: seq<Comment>)
    ensures NewestFirst(r)
    ensures multiset(r) == multiset(s)
    ensures |r| == |s|
  {
    if s == [] then []
    else
      assert s == [s[0]] + s[1..];
      InsertNewestFirst(s[0], SortNewestFirst(s[1..]))
  }

  /** When no two comments share a creation time, the newest-first order is
      the only one: a sorted permutation is unique. */
  lemma {:induction false} NewestFirstUnique(a: seq<Comment>, b: seq<Comment>)
    requires NewestFirst(a) && NewestFirst(b)
    requires multiset(a) == multiset(b)
    requires TimesDetermine(a)
    ensures a == b
    decreases |a|
  {
    if a != [] {
      SameHead(a, b);
      SameTail(a, b);
      assert forall x | x in a[1..] :: x in a;
      NewestFirstUnique(a[1..], b[1..]);
    }
  }

  /** Both orders start with a newest comment, and only one comment has that
      time. */
  lemma SameHead(a: seq<Comment>, b: seq<Comment>)
    requires NewestFirst(a) && NewestFirst(b)
    requires multiset(a) == multiset(b)
    requires TimesDetermine(a)
    requires a != []
    ensures b != [] && a[0] == b[0]
  {
    assert a[0] in multiset(b);
    assert b[0] in multiset(a);
    var i :| 0 <= i < |a| && a[i] == b[0];
    var j :| 0 <= j < |b| && b[j] == a[0];
    assert a[0].createdAt >= a[i].createdAt;
    assert b[0].createdAt >= b[j].createdAt;
  }

  lemma SameTail(a: seq<Comment>, b: seq<Comment>)
    requires multiset(a) == multiset(b)
    requires a != [] && b != [] && a[0] == b[0]
    ensures multiset(a[1..]) == multiset(b[1..])
  {
    assert a == [a[0]] + a[1..];
    assert b == [b[0]] + b[1..];
    assert multiset(a[1..]) == multiset(a) - multiset{a[0]};
    assert multiset(b[1..]) == multiset(b) - multiset{b[0]};
  }

  /** The order the server returns the roots in does not matter when no two
      share a creation time. */
  lemma OrderIndependentOfArrival(s1: seq<Comment>, s2: seq<Comment>)
    requires multiset(s1) == multiset(s2)
    requires TimesDetermine(s1)
    ensures SortNewestFirst(s1) == SortNewestFirst(s2)
  {
    var r1, r2 := SortNewestFirst(s1), SortNewestFirst(s2);
    forall x | x in r1 ensures x in s1 {
      assert x in multiset(r1);
    }
    NewestFirstUnique(r1, r2);
  }

  // ---------------------------------------------------------------------------
  // Pagination

  function Min(a: int, b: int): int
  {
    if a <= b then a else b
  }

  /** The roots rendered: the first `min(|sorted|, visibleTop)` of the
      sorted roots. */
  function TopToRender(sorted: seq<Comment>, visibleTop: nat): (r: seq<Comment>)
    ensures |r| == Min(|sorted|, visibleTop)
    ensures forall i :: 0 <= i < |r| ==> r[i] == sorted[i]
  {
    sorted[..Min(|sorted|, visibleTop)]
  }

  /** The "load more" control is offered to a signed-in user while fewer
      roots are revealed than exist. */
  predicate CanLoadMore(hasToken: bool, visibleTop: int, roots: nat): (b: bool)
    ensures b <==> hasToken && Min(roots, visibleTop) < roots
  {
    hasToken && visibleTop < roots
  }

  /** The control is offered exactly when the rendered prefix leaves some
      root out, and the rendered roots are the newest ones. */
  lemma LoadMoreIffHidden(comments: seq<Comment>, visibleTop: nat, hasToken: bool)
    ensures CanLoadMore(hasToken, visibleTop, |comments|)
        <==> hasToken && |TopToRender(SortNewestFirst(comments), visibleTop)| < |comments|
    ensures NewestFirst(TopToRender(SortNewestFirst(comments), visibleTop))
    ensures multiset(TopToRender(SortNewestFirst(comments), visibleTop)) <= multiset(comments)
  {
    var sorted := SortNewestFirst(comments);
    var top := TopToRender(sorted, visibleTop);
    assert sorted == top + sorted[|top|..];
  }
}
