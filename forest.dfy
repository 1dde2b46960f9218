/** The comment forest held by the discussion widget, and the queries over it
    that the operations and their proofs share: the number of nodes, the
    depth-first listing of the nodes, where an id occurs, and which nodes an
    id-directed walk reaches first. */
module Forest {

  datatype Option<T> = None | Some(value: T)

  /** One comment of the thread. `createdAt` stands for the parsed
      `created_at` timestamp; a missing `replies` array is the empty sequence. */
  datatype Comment = Comment(id: int, upvotes: int, createdAt: int, replies: seq<Comment>)

  /** The node's own fields, with its replies taken away. */
  function Strip(c: Comment): (r: Comment)
    ensures r.id == c.id && r.upvotes == c.upvotes && r.createdAt == c.createdAt
    ensures r.replies == []
  {
    c.(replies := [])
  }

  /** Number of comments at every depth of the forest. */
  function Count(f: seq<Comment>): nat
  {
    if f == [] then 0 else 1 + Count(f[0].replies) + Count(f[1..])
  }

  /** Number of comments in the thread rooted at `c`, `c` included. */
  function Size(c: Comment): (n: nat)
    ensures n == Count([c])
  {
    assert [c][1..] == [];
    1 + Count(c.replies)
  }

  /** The nodes of the forest, depth first, parents before their replies,
      each with its replies stripped. */
  function Preorder(f: seq<Comment>): seq<Comment>
  {
    if f == [] then [] else [Strip(f[0])] + Preorder(f[0].replies) + Preorder(f[1..])
  }

  /** How many nodes, at any depth, carry `id`. */
  function Occurrences(f: seq<Comment>, id: int): nat
  {
    if f == [] then 0
    else (if f[0].id == id then 1 else 0) + Occurrences(f[0].replies, id) + Occurrences(f[1..], id)
  }

  /** The first node, depth first, that carries `id`. */
  function Find(f: seq<Comment>, id: int): (r: Option<Comment>)
    ensures r.Some? ==> r.value.id == id
  {
    if f == [] then None
    else if f[0].id == id then Some(f[0])
    else match Find(f[0].replies, id)
      case Some(c) => Some(c)
      case None => Find(f[1..], id)
  }

  /** The nodes carrying `id` that have no ancestor carrying `id`, in
      depth-first order: the nodes an id-directed walk stops at. */
  function Matches(f: seq<Comment>, id: int): (m: seq<Comment>)
    ensures forall i :: 0 <= i < |m| ==> m[i].id == id
  {
    if f == [] then []
    else (if f[0].id == id then [f[0]] else Matches(f[0].replies, id)) + Matches(f[1..], id)
  }

  /** Every upvote count in the forest, at every depth, is non-negative. */
  predicate NonNegative(f: seq<Comment>)
  {
    f == [] || (f[0].upvotes >= 0 && NonNegative(f[0].replies) && NonNegative(f[1..]))
  }

  /** `a` is `b` with some elements left out, the rest in their order. */
  predicate IsSubseq(a: seq<Comment>, b: seq<Comment>)
    decreases |b|
  {
    a == [] || (b != [] && ((a[0] == b[0] && IsSubseq(a[1..], b[1..])) || IsSubseq(a, b[1..])))
  }

  /** `a` is `b` with some whole threads deleted, at any depth: every node of
      `a` is a node of `b` with the same own fields, under the counterpart of
      its parent, among its siblings in their order, and a deleted node takes
      all its replies with it. */
  predicate ThreadsDeleted(a: seq<Comment>, b: seq<Comment>)
    decreases b
  {
    if b == [] then a == []
    else
      (a != [] && Strip(a[0]) == Strip(b[0]) && ThreadsDeleted(a[0].replies, b[0].replies)
         && ThreadsDeleted(a[1..], b[1..]))
      || ThreadsDeleted(a, b[1..])
  }

  // ---------------------------------------------------------------------------
  // Splitting a forest

  lemma {:induction false} CountConcat(a: seq<Comment>, b: seq<Comment>)
    ensures Count(a + b) == Count(a) + Count(b)
  {
    if a == [] {
      assert a + b == b;
    } else {
      assert (a + b)[0] == a[0];
      assert (a + b)[1..] == a[1..] + b;
      CountConcat(a[1..], b);
    }
  }

  lemma {:induction false} PreorderConcat(a: seq<Comment>, b: seq<Comment>)
    ensures Preorder(a + b) == Preorder(a) + Preorder(b)
  {
    if a == [] {
      assert a + b == b;
    } else {
      assert (a + b)[0] == a[0];
      assert (a + b)[1..] == a[1..] + b;
      PreorderConcat(a[1..], b);
    }
  }

  lemma {:induction false} OccurrencesConcat(a: seq<Comment>, b: seq<Comment>, id: int)
    ensures Occurrences(a + b, id) == Occurrences(a, id) + Occurrences(b, id)
  {
    if a == [] {
      assert a + b == b;
    } else {
      assert (a + b)[0] == a[0];
      assert (a + b)[1..] == a[1..] + b;
      OccurrencesConcat(a[1..], b, id);
    }
  }

  /** The node count is the length of the depth-first listing. */
  lemma {:induction false} CountIsPreorderLength(f: seq<Comment>)
    ensures Count(f) == |Preorder(f)|
  {
    if f != [] {
      CountIsPreorderLength(f[0].replies);
      CountIsPreorderLength(f[1..]);
    }
  }

  /** How many comments of a flat list carry `id`. */
  function CountId(s: seq<Comment>, id: int): nat
  {
    if s == [] then 0 else (if s[0].id == id then 1 else 0) + CountId(s[1..], id)
  }

  lemma {:induction false} CountIdConcat(a: seq<Comment>, b: seq<Comment>, id: int)
    ensures CountId(a + b, id) == CountId(a, id) + CountId(b, id)
  {
    if a == [] {
      assert a + b == b;
    } else {
      assert (a + b)[0] == a[0];
      assert (a + b)[1..] == a[1..] + b;
      CountIdConcat(a[1..], b, id);
    }
  }

  /** `Occurrences` counts exactly the listed nodes that carry `id`. */
  lemma {:induction false} OccurrencesInPreorder(f: seq<Comment>, id: int)
    ensures Occurrences(f, id) == CountId(Preorder(f), id)
  {
    if f != [] {
      OccurrencesInPreorder(f[0].replies, id);
      OccurrencesInPreorder(f[1..], id);
      CountIdConcat([Strip(f[0])] + Preorder(f[0].replies), Preorder(f[1..]), id);
      CountIdConcat([Strip(f[0])], Preorder(f[0].replies), id);
    }
  }

  // ---------------------------------------------------------------------------
  // Where an id sits

  /** An id-directed walk finds nothing exactly when the id occurs nowhere. */
  lemma {:induction false} FindNoneIffAbsent(f: seq<Comment>, id: int)
    ensures Find(f, id).None? <==> Occurrences(f, id) == 0
  {
    if f != [] {
      FindNoneIffAbsent(f[0].replies, id);
      FindNoneIffAbsent(f[1..], id);
    }
  }

  /** Every node carrying `id` lies inside one of the topmost matches, so
      there are no more topmost matches than occurrences, and at least one
      when the id occurs at all. */
  lemma {:induction false} MatchesBound(f: seq<Comment>, id: int)
    ensures |Matches(f, id)| <= Occurrences(f, id)
    ensures Occurrences(f, id) > 0 ==> |Matches(f, id)| > 0
  {
    if f != [] {
      MatchesBound(f[0].replies, id);
      MatchesBound(f[1..], id);
    }
  }

  /** The first topmost match is the node `Find` returns. */
  lemma {:induction false} MatchesHead(f: seq<Comment>, id: int)
    requires Matches(f, id) != []
    ensures Find(f, id) == Some(Matches(f, id)[0])
  {
    if f[0].id != id {
      if Matches(f[0].replies, id) != [] {
        MatchesHead(f[0].replies, id);
      } else {
        MatchesBound(f[0].replies, id);
        FindNoneIffAbsent(f[0].replies, id);
        MatchesHead(f[1..], id);
      }
    }
  }

  /** An id that occurs exactly once is matched by exactly the node found. */
  lemma MatchesOnce(f: seq<Comment>, id: int)
    requires Occurrences(f, id) == 1
    ensures Find(f, id).Some?
    ensures Matches(f, id) == [Find(f, id).value]
  {
    MatchesBound(f, id);
    MatchesHead(f, id);
  }

  // ---------------------------------------------------------------------------
  // The forest around the topmost matches

  /** The node an id-directed walk stops at, reduced to a bare placeholder. */
  function Placeholder(id: int): (c: Comment)
    ensures c.id == id && c.replies == []
  {
    Comment(id, 0, 0, [])
  }

  /** The forest with every topmost node carrying `id` replaced by a
      placeholder: the nodes an id-directed walk passes by, at their depths
      and positions, and the places where it stops. No other node of the
      skeleton carries `id`. */
  function Skeleton(f: seq<Comment>, id: int): (s: seq<Comment>)
    ensures |s| == |f|
    ensures forall i :: 0 <= i < |f| ==> (s[i].id == id <==> f[i].id == id)
  {
    if f == [] then []
    else
      var head := if f[0].id == id then Placeholder(id) else f[0].(replies := Skeleton(f[0].replies, id));
      [head] + Skeleton(f[1..], id)
  }

  /** Each placeholder of the skeleton stands for one topmost match. */
  lemma {:induction false} PlaceholdersAreMatches(f: seq<Comment>, id: int)
    ensures Occurrences(Skeleton(f, id), id) == |Matches(f, id)|
  {
    if f != [] {
      var s := Skeleton(f, id);
      assert s[1..] == Skeleton(f[1..], id);
      PlaceholdersAreMatches(f[1..], id);
      if f[0].id != id {
        PlaceholdersAreMatches(f[0].replies, id);
      }
    }
  }

  lemma SplitEqual(a1: seq<Comment>, b1: seq<Comment>, a2: seq<Comment>, b2: seq<Comment>)
    requires a1 + b1 == a2 + b2 && |a1| == |a2|
    ensures a1 == a2 && b1 == b2
  {
    assert a1 == (a1 + b1)[..|a1|] && a2 == (a2 + b2)[..|a2|];
    assert b1 == (a1 + b1)[|a1|..] && b2 == (a2 + b2)[|a2|..];
  }

  /** The skeleton and the topmost matches, in order, determine the forest:
      two forests that agree on both are equal. */
  lemma {:induction false} SkeletonDetermines(f: seq<Comment>, g: seq<Comment>, id: int)
    requires Skeleton(f, id) == Skeleton(g, id)
    requires Matches(f, id) == Matches(g, id)
    ensures f == g
  {
    if f != [] {
      var sf, sg := Skeleton(f, id), Skeleton(g, id);
      assert sf[0] == sg[0] && sf[1..] == sg[1..];
      if f[0].id == id {
        assert g[0].id == id;
        SplitEqual([f[0]], Matches(f[1..], id), [g[0]], Matches(g[1..], id));
      } else {
        assert g[0].id != id;
        PlaceholdersAreMatches(f[0].replies, id);
        PlaceholdersAreMatches(g[0].replies, id);
        SplitEqual(Matches(f[0].replies, id), Matches(f[1..], id), Matches(g[0].replies, id), Matches(g[1..], id));
        SkeletonDetermines(f[0].replies, g[0].replies, id);
      }
      SkeletonDetermines(f[1..], g[1..], id);
      assert f == [f[0]] + f[1..] && g == [g[0]] + g[1..];
    }
  }

  // ---------------------------------------------------------------------------
  // Subsequences

  lemma {:induction false} SubseqRefl(a: seq<Comment>)
    ensures IsSubseq(a, a)
    decreases |a|
  {
    if a != [] {
      SubseqRefl(a[1..]);
    }
  }

  lemma {:induction false} SubseqDrop(a: seq<Comment>, b1: seq<Comment>, b2: seq<Comment>)
    requires IsSubseq(a, b2)
    ensures IsSubseq(a, b1 + b2)
    decreases |b1|
  {
    if a != [] && b1 != [] {
      assert (b1 + b2)[1..] == b1[1..] + b2;
      SubseqDrop(a, b1[1..], b2);
    } else if b1 == [] {
      assert b1 + b2 == b2;
    }
  }

  lemma {:induction false} SubseqConcat(a1: seq<Comment>, b1: seq<Comment>, a2: seq<Comment>, b2: seq<Comment>)
    requires IsSubseq(a1, b1) && IsSubseq(a2, b2)
    ensures IsSubseq(a1 + a2, b1 + b2)
    decreases |b1|
  {
    if a1 == [] {
      assert a1 + a2 == a2;
      SubseqDrop(a2, b1, b2);
    } else {
      assert (a1 + a2)[0] == a1[0] && (a1 + a2)[1..] == a1[1..] + a2;
      assert (b1 + b2)[0] == b1[0] && (b1 + b2)[1..] == b1[1..] + b2;
      if a1[0] == b1[0] && IsSubseq(a1[1..], b1[1..]) {
        SubseqConcat(a1[1..], b1[1..], a2, b2);
      } else {
        SubseqConcat(a1, b1[1..], a2, b2);
      }
    }
  }

  // ---------------------------------------------------------------------------
  // countComments

  /** Total number of comments at all depths, accumulated over the list as the
      source does, recursing into each comment's replies. */
  method CountComments(list: seq<Comment>) returns (total: nat)
    ensures total == Count(list)
    ensures total == |Preorder(list)|
    decreases list
  {
    total := 0;
    var i := 0;
    while i < |list|
      invariant 0 <= i <= |list|
      invariant total == Count(list[..i])
    {
      var c := list[i];
      var sub := CountComments(c.replies);
      assert list[..i + 1] == list[..i] + [c];
      CountConcat(list[..i], [c]);
      total := total + 1 + sub;
      i := i + 1;
    }
    assert list[..|list|] == list;
    CountIsPreorderLength(list);
  }
}
