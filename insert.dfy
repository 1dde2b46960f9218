/** `insertReply`: append a reply to the replies of the node carrying the
    parent id, wherever it sits. */
module ForestInsert {
  import opened Forest

  /** Maps over each level: a node carrying `parentId` gets `newReply`
      appended to its replies (its replies are not searched further), any
      other node with replies is rebuilt around the updated replies, a leaf is
      kept as it is. */
  function InsertReply(f: seq<Comment>, parentId: int, newReply: Comment): (r: seq<Comment>)
    ensures |r| == |f|
    ensures forall i :: 0 <= i < |f| ==> Strip(r[i]) == Strip(f[i])
    ensures forall i :: 0 <= i < |f| && f[i].id == parentId ==> r[i].replies == f[i].replies + [newReply]
    ensures forall i :: 0 <= i < |f| && f[i].id != parentId ==> |r[i].replies| == |f[i].replies|
  {
    if f == [] then []
    else
      var head :=
        if f[0].id == parentId then f[0].(replies := f[0].replies + [newReply])
        else if |f[0].replies| > 0 then f[0].(replies := InsertReply(f[0].replies, parentId, newReply))
        else f[0];
      [head] + InsertReply(f[1..], parentId, newReply)
  }

  /** A parent id that occurs nowhere leaves the forest as it was: the reply
      is silently dropped. */
  lemma {:induction false} InsertAbsent(f: seq<Comment>, parentId: int, newReply: Comment)
    requires Occurrences(f, parentId) == 0
    ensures InsertReply(f, parentId, newReply) == f
  {
    if f != [] {
      InsertAbsent(f[0].replies, parentId, newReply);
      InsertAbsent(f[1..], parentId, newReply);
    }
  }

  /** The forest grows by one copy of the reply's thread for every topmost
      node carrying the parent id. */
  lemma {:induction false} InsertCount(f: seq<Comment>, parentId: int, newReply: Comment)
    ensures Count(InsertReply(f, parentId, newReply))
         == Count(f) + |Matches(f, parentId)| * Size(newReply)
  {
    if f != [] {
      var s := Size(newReply);
      var r := InsertReply(f, parentId, newReply);
      assert r[1..] == InsertReply(f[1..], parentId, newReply);
      InsertCount(f[1..], parentId, newReply);
      var m0 := if f[0].id == parentId then [f[0]] else Matches(f[0].replies, parentId);
      var m1 := Matches(f[1..], parentId);
      assert |Matches(f, parentId)| == |m0| + |m1|;
      if f[0].id == parentId {
        CountConcat(f[0].replies, [newReply]);
        assert Count(r[0].replies) == Count(f[0].replies) + |m0| * s;
      } else {
        InsertCount(f[0].replies, parentId, newReply);
        if |f[0].replies| == 0 {
          assert r[0] == f[0];
        }
        assert Count(r[0].replies) == Count(f[0].replies) + |m0| * s;
      }
      Distribute(|m0|, |m1|, s);
    }
  }

  lemma Distribute(a: nat, b: nat, s: nat)
    ensures (a + b) * s == a * s + b * s
  {
  }

  /** When the parent id occurs, the first node carrying it, depth first, is
      the node that was found, with the reply appended after its replies. */
  lemma {:induction false} InsertFindsParent(f: seq<Comment>, parentId: int, newReply: Comment)
    requires Occurrences(f, parentId) > 0
    ensures Find(f, parentId).Some?
    ensures Find(InsertReply(f, parentId, newReply), parentId)
         == Some(Find(f, parentId).value.(replies := Find(f, parentId).value.replies + [newReply]))
  {
    FindNoneIffAbsent(f, parentId);
    var r := InsertReply(f, parentId, newReply);
    assert r[1..] == InsertReply(f[1..], parentId, newReply);
    if f[0].id != parentId {
      FindNoneIffAbsent(f[0].replies, parentId);
      if Occurrences(f[0].replies, parentId) > 0 {
        InsertFindsParent(f[0].replies, parentId, newReply);
      } else {
        InsertAbsent(f[0].replies, parentId, newReply);
        assert r[0] == f[0];
        FindNoneIffAbsent(f[1..], parentId);
        InsertFindsParent(f[1..], parentId, newReply);
      }
    }
  }

  /** Each comment of a flat list with `newReply` appended to its replies. */
  function Adopted(s: seq<Comment>, newReply: Comment): (r: seq<Comment>)
    ensures |r| == |s|
    ensures forall i :: 0 <= i < |s| ==> r[i] == s[i].(replies := s[i].replies + [newReply])
  {
    if s == [] then [] else [s[0].(replies := s[0].replies + [newReply])] + Adopted(s[1..], newReply)
  }

  lemma {:induction false} AdoptedConcat(a: seq<Comment>, b: seq<Comment>, newReply: Comment)
    ensures Adopted(a + b, newReply) == Adopted(a, newReply) + Adopted(b, newReply)
  {
    if a == [] {
      assert a + b == b;
    } else {
      assert (a + b)[0] == a[0];
      assert (a + b)[1..] == a[1..] + b;
      AdoptedConcat(a[1..], b, newReply);
    }
  }

  /** At every depth: the nodes the walk passes by keep their places and
      their data, and every topmost node carrying the parent id, not only the
      first, gets the reply after its existing replies. */
  lemma {:induction false} InsertAdoptsAtMatches(f: seq<Comment>, parentId: int, newReply: Comment)
    ensures Skeleton(InsertReply(f, parentId, newReply), parentId) == Skeleton(f, parentId)
    ensures Matches(InsertReply(f, parentId, newReply), parentId) == Adopted(Matches(f, parentId), newReply)
  {
    if f != [] {
      var r := InsertReply(f, parentId, newReply);
      assert r[1..] == InsertReply(f[1..], parentId, newReply);
      InsertAdoptsAtMatches(f[1..], parentId, newReply);
      if f[0].id == parentId {
        AdoptedConcat([f[0]], Matches(f[1..], parentId), newReply);
      } else {
        InsertAdoptsAtMatches(f[0].replies, parentId, newReply);
        AdoptedConcat(Matches(f[0].replies, parentId), Matches(f[1..], parentId), newReply);
      }
    }
  }

  /** The two facts above say all there is: any forest with the skeleton of
      `f` whose topmost parents are those of `f` with the reply appended is
      the result of the insertion. */
  lemma InsertCharacterised(f: seq<Comment>, g: seq<Comment>, parentId: int, newReply: Comment)
    requires Skeleton(g, parentId) == Skeleton(f, parentId)
    requires Matches(g, parentId) == Adopted(Matches(f, parentId), newReply)
    ensures g == InsertReply(f, parentId, newReply)
  {
    InsertAdoptsAtMatches(f, parentId, newReply);
    SkeletonDetermines(g, InsertReply(f, parentId, newReply), parentId);
  }

  /** For a parent id that occurs exactly once: the parent keeps its replies
      and has the new reply as its last one, and the forest grows by exactly
      the reply's thread. */
  lemma InsertReplyOnce(f: seq<Comment>, parentId: int, newReply: Comment)
    requires Occurrences(f, parentId) == 1
    ensures Find(f, parentId).Some? && Find(InsertReply(f, parentId, newReply), parentId).Some?
    ensures var before := Find(f, parentId).value.replies;
            var after := Find(InsertReply(f, parentId, newReply), parentId).value.replies;
            |after| == |before| + 1 && after[..|before|] == before && after[|before|] == newReply
    ensures Count(InsertReply(f, parentId, newReply)) == Count(f) + Count([newReply])
  {
    InsertFindsParent(f, parentId, newReply);
    MatchesOnce(f, parentId);
    InsertCount(f, parentId, newReply);
    OneTimes(|Matches(f, parentId)|, Size(newReply));
    AppendedLast(Find(f, parentId).value.replies, newReply);
  }

  lemma OneTimes(m: nat, s: nat)
    requires m == 1
    ensures m * s == s
  {
  }

  lemma AppendedLast(before: seq<Comment>, x: Comment)
    ensures var after := before + [x];
            |after| == |before| + 1 && after[..|before|] == before && after[|before|] == x
  {
    assert (before + [x])[..|before|] == before;
  }

  /** Posting the same reply twice under the same parent gives two entries:
      there is no deduplication. */
  lemma InsertTwice(f: seq<Comment>, parentId: int, newReply: Comment)
    requires Occurrences(f, parentId) > 0
    ensures Find(f, parentId).Some?
    ensures var twice := InsertReply(InsertReply(f, parentId, newReply), parentId, newReply);
            Find(twice, parentId).Some? &&
            Find(twice, parentId).value.replies == Find(f, parentId).value.replies + [newReply, newReply]
  {
    var once := InsertReply(f, parentId, newReply);
    InsertFindsParent(f, parentId, newReply);
    FindNoneIffAbsent(once, parentId);
    InsertFindsParent(once, parentId, newReply);
    var before := Find(f, parentId).value.replies;
    assert before + [newReply] + [newReply] == before + [newReply, newReply];
  }

  /** Every node already in the forest is still there, in the same
      depth-first order. */
  lemma {:induction false} InsertKeepsNodes(f: seq<Comment>, parentId: int, newReply: Comment)
    ensures IsSubseq(Preorder(f), Preorder(InsertReply(f, parentId, newReply)))
  {
    if f != [] {
      var r := InsertReply(f, parentId, newReply);
      assert r[1..] == InsertReply(f[1..], parentId, newReply);
      InsertKeepsNodes(f[1..], parentId, newReply);
      if f[0].id == parentId {
        var pre := Preorder(f[0].replies);
        PreorderConcat(f[0].replies, [newReply]);
        SubseqRefl(pre);
        SubseqConcat(pre, pre, [], Preorder([newReply]));
        assert pre + [] == pre;
      } else {
        InsertKeepsNodes(f[0].replies, parentId, newReply);
        if |f[0].replies| == 0 {
          assert r[0] == f[0];
        }
      }
      SubseqRefl([Strip(f[0])]);
      SubseqConcat([Strip(f[0])], [Strip(r[0])], Preorder(f[0].replies), Preorder(r[0].replies));
      SubseqConcat([Strip(f[0])] + Preorder(f[0].replies), [Strip(r[0])] + Preorder(r[0].replies),
                   Preorder(f[1..]), Preorder(r[1..]));
    }
  }
}
