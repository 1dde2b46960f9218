/** `updateComment`: replace, wherever it sits, the node carrying an id by the
    mutator's image of it; and the two mutators the upvote handler passes. */
module ForestUpdate {
  import opened Forest

  /** Maps over each level: a node carrying `id` becomes `mut` of it (its
      replies are not searched further), any other node with replies is
      rebuilt around the updated replies, a leaf is kept as it is. */
  function UpdateComment(f: seq<Comment>, id: int, mut: Comment -> Comment): (r: seq<Comment>)
    ensures |r| == |f|
    ensures forall i :: 0 <= i < |f| && f[i].id == id ==> r[i] == mut(f[i])
    ensures forall i :: 0 <= i < |f| && f[i].id != id ==>
              Strip(r[i]) == Strip(f[i]) && |r[i].replies| == |f[i].replies|
  {
    if f == [] then []
    else
      var head :=
        if f[0].id == id then mut(f[0])
        else if |f[0].replies| > 0 then f[0].(replies := UpdateComment(f[0].replies, id, mut))
        else f[0];
      [head] + UpdateComment(f[1..], id, mut)
  }

  /** The optimistic step: one more upvote. */
  function AddUpvote(c: Comment): (r: Comment)
    ensures r.upvotes == c.upvotes + 1
    ensures r.id == c.id && r.createdAt == c.createdAt && r.replies == c.replies
  {
    c.(upvotes := c.upvotes + 1)
  }

  /** The compensating step: one upvote fewer, floored at zero. */
  function RemoveUpvote(c: Comment): (r: Comment)
    ensures r.upvotes >= 0
    ensures c.upvotes >= 1 ==> r.upvotes == c.upvotes - 1
    ensures c.upvotes <= 0 ==> r.upvotes == 0
    ensures r.id == c.id && r.createdAt == c.createdAt && r.replies == c.replies
  {
    c.(upvotes := if c.upvotes - 1 > 0 then c.upvotes - 1 else 0)
  }

  /** A mutator that keeps a node's id and its replies, changing only the
      node's own data. */
  ghost predicate KeepsIdAndReplies(mut: Comment -> Comment)
  {
    forall c :: mut(c).id == c.id && mut(c).replies == c.replies
  }

  /** Two flat node lists agree position by position on ids, and on every
      position whose id is not `id` they agree entirely. */
  ghost predicate AgreeAwayFrom(a: seq<Comment>, b: seq<Comment>, id: int)
  {
    |a| == |b| &&
    forall k :: 0 <= k < |a| ==> a[k].id == b[k].id && (a[k].id != id ==> a[k] == b[k])
  }

  lemma AgreeConcat(a1: seq<Comment>, b1: seq<Comment>, a2: seq<Comment>, b2: seq<Comment>, id: int)
    requires AgreeAwayFrom(a1, b1, id) && AgreeAwayFrom(a2, b2, id)
    ensures AgreeAwayFrom(a1 + a2, b1 + b2, id)
  {
    forall k | 0 <= k < |a1 + a2|
      ensures (a1 + a2)[k].id == (b1 + b2)[k].id
      ensures (a1 + a2)[k].id != id ==> (a1 + a2)[k] == (b1 + b2)[k]
    {
      if k >= |a1| {
        assert (a1 + a2)[k] == a2[k - |a1|] && (b1 + b2)[k] == b2[k - |a1|];
      }
    }
  }

  // ---------------------------------------------------------------------------

  /** An id that occurs nowhere leaves the forest exactly as it was. */
  lemma {:induction false} UpdateAbsent(f: seq<Comment>, id: int, mut: Comment -> Comment)
    requires Occurrences(f, id) == 0
    ensures UpdateComment(f, id, mut) == f
  {
    if f != [] {
      UpdateAbsent(f[0].replies, id, mut);
      UpdateAbsent(f[1..], id, mut);
    }
  }

  /** When the id occurs, the first node carrying it, depth first, is now the
      mutator's image of the node that was there. */
  lemma {:induction false} UpdateFindsFirst(f: seq<Comment>, id: int, mut: Comment -> Comment)
    requires forall c :: mut(c).id == c.id
    requires Occurrences(f, id) > 0
    ensures Find(f, id).Some?
    ensures Find(UpdateComment(f, id, mut), id) == Some(mut(Find(f, id).value))
  {
    FindNoneIffAbsent(f, id);
    var r := UpdateComment(f, id, mut);
    assert r[1..] == UpdateComment(f[1..], id, mut);
    if f[0].id != id {
      FindNoneIffAbsent(f[0].replies, id);
      if Occurrences(f[0].replies, id) > 0 {
        UpdateFindsFirst(f[0].replies, id, mut);
      } else {
        UpdateAbsent(f[0].replies, id, mut);
        assert r[0] == f[0];
        FindNoneIffAbsent(f[1..], id);
        UpdateFindsFirst(f[1..], id, mut);
      }
    }
  }

  /** `mut` applied to each element of a flat list. */
  function Mapped(mut: Comment -> Comment, s: seq<Comment>): (r: seq<Comment>)
    ensures |r| == |s|
    ensures forall i :: 0 <= i < |s| ==> r[i] == mut(s[i])
  {
    if s == [] then [] else [mut(s[0])] + Mapped(mut, s[1..])
  }

  lemma {:induction false} MappedConcat(mut: Comment -> Comment, a: seq<Comment>, b: seq<Comment>)
    ensures Mapped(mut, a + b) == Mapped(mut, a) + Mapped(mut, b)
  {
    if a == [] {
      assert a + b == b;
    } else {
      assert (a + b)[0] == a[0];
      assert (a + b)[1..] == a[1..] + b;
      MappedConcat(mut, a[1..], b);
    }
  }

  /** At every depth, with a mutator that keeps ids: the nodes the walk passes
      by keep their places and their data, and every topmost node carrying
      `id`, not only the first, becomes the mutator's image of itself. */
  lemma {:induction false} UpdateReplacesMatches(f: seq<Comment>, id: int, mut: Comment -> Comment)
    requires forall c :: mut(c).id == c.id
    ensures Skeleton(UpdateComment(f, id, mut), id) == Skeleton(f, id)
    ensures Matches(UpdateComment(f, id, mut), id) == Mapped(mut, Matches(f, id))
  {
    if f != [] {
      var r := UpdateComment(f, id, mut);
      assert r[1..] == UpdateComment(f[1..], id, mut);
      UpdateReplacesMatches(f[1..], id, mut);
      if f[0].id == id {
        MappedConcat(mut, [f[0]], Matches(f[1..], id));
      } else {
        UpdateReplacesMatches(f[0].replies, id, mut);
        MappedConcat(mut, Matches(f[0].replies, id), Matches(f[1..], id));
      }
    }
  }

  /** The two facts above say all there is: any forest with the skeleton of
      `f` whose topmost matches are the mutator's images of those of `f` is
      the updated forest. */
  lemma UpdateCharacterised(f: seq<Comment>, g: seq<Comment>, id: int, mut: Comment -> Comment)
    requires forall c :: mut(c).id == c.id
    requires Skeleton(g, id) == Skeleton(f, id)
    requires Matches(g, id) == Mapped(mut, Matches(f, id))
    ensures g == UpdateComment(f, id, mut)
  {
    UpdateReplacesMatches(f, id, mut);
    SkeletonDetermines(g, UpdateComment(f, id, mut), id);
  }

  /** With a mutator that keeps ids and replies, the depth-first listing keeps
      its length and its ids, and only nodes carrying `id` can differ. */
  lemma {:induction false} UpdateOnlyTouchesMatches(f: seq<Comment>, id: int, mut: Comment -> Comment)
    requires KeepsIdAndReplies(mut)
    ensures AgreeAwayFrom(Preorder(UpdateComment(f, id, mut)), Preorder(f), id)
    ensures Count(UpdateComment(f, id, mut)) == Count(f)
  {
    var r := UpdateComment(f, id, mut);
    if f != [] {
      assert r[1..] == UpdateComment(f[1..], id, mut);
      UpdateOnlyTouchesMatches(f[1..], id, mut);
      if f[0].id == id {
        assert r[0].replies == f[0].replies;
        SameAgree(Preorder(f[0].replies), id);
      } else {
        UpdateOnlyTouchesMatches(f[0].replies, id, mut);
        if |f[0].replies| == 0 {
          assert r[0] == f[0];
        }
      }
      assert Strip(r[0]).id == Strip(f[0]).id;
      AgreeConcat([Strip(r[0])], [Strip(f[0])], Preorder(r[0].replies), Preorder(f[0].replies), id);
      AgreeConcat([Strip(r[0])] + Preorder(r[0].replies), [Strip(f[0])] + Preorder(f[0].replies),
                  Preorder(r[1..]), Preorder(f[1..]), id);
    }
    CountIsPreorderLength(r);
    CountIsPreorderLength(f);
  }

  lemma SameAgree(a: seq<Comment>, id: int)
    ensures AgreeAwayFrom(a, a, id)
  {
  }

  /** A failed upvote is undone exactly: on a forest whose counts are all
      non-negative, the optimistic update followed by the rollback gives the
      forest back. */
  lemma {:induction false} RollbackUndoesUpvote(f: seq<Comment>, id: int)
    requires NonNegative(f)
    ensures UpdateComment(UpdateComment(f, id, AddUpvote), id, RemoveUpvote) == f
  {
    if f != [] {
      var up := UpdateComment(f, id, AddUpvote);
      assert up[1..] == UpdateComment(f[1..], id, AddUpvote);
      RollbackUndoesUpvote(f[1..], id);
      if f[0].id != id && |f[0].replies| > 0 {
        RollbackUndoesUpvote(f[0].replies, id);
      }
      var back := UpdateComment(up, id, RemoveUpvote);
      assert back[1..] == UpdateComment(up[1..], id, RemoveUpvote);
      assert back[0] == f[0];
    }
  }

  /** Neither upvote mutator makes any count in the forest negative. */
  lemma {:induction false} UpvoteKeepsNonNegative(f: seq<Comment>, id: int, mut: Comment -> Comment)
    requires mut == AddUpvote || mut == RemoveUpvote
    requires NonNegative(f)
    ensures NonNegative(UpdateComment(f, id, mut))
  {
    if f != [] {
      var r := UpdateComment(f, id, mut);
      assert r[1..] == UpdateComment(f[1..], id, mut);
      UpvoteKeepsNonNegative(f[1..], id, mut);
      if f[0].id != id && |f[0].replies| > 0 {
        UpvoteKeepsNonNegative(f[0].replies, id, mut);
      }
    }
  }
}
