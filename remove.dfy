/** `removeCommentSubtree`: drop every node carrying an id, together with all
    of its replies, from wherever it sits. */
module ForestRemove {
  import opened Forest

  /** The forest with every node carrying `id` and its whole thread left
      out; the remaining nodes keep their order. */
  function Pruned(f: seq<Comment>, id: int): (r: seq<Comment>)
    ensures |r| <= |f|
    ensures forall i :: 0 <= i < |r| ==> r[i].id != id
  {
    if f == [] then []
    else
      var kept :=
        if f[0].id == id then []
        else if |f[0].replies| > 0 then [f[0].(replies := Pruned(f[0].replies, id))]
        else [f[0]];
      kept + Pruned(f[1..], id)
  }

  lemma {:induction false} PrunedConcat(a: seq<Comment>, b: seq<Comment>, id: int)
    ensures Pruned(a + b, id) == Pruned(a, id) + Pruned(b, id)
  {
    if a == [] {
      assert a + b == b;
    } else {
      assert (a + b)[0] == a[0];
      assert (a + b)[1..] == a[1..] + b;
      PrunedConcat(a[1..], b, id);
    }
  }

  /** The source's loop: walk the list, skip a node carrying `id`, rebuild a
      node with replies around its pruned replies, push the rest unchanged. */
  method RemoveCommentSubtree(list: seq<Comment>, id: int) returns (out: seq<Comment>)
    ensures out == Pruned(list, id)
    ensures Occurrences(out, id) == 0
    ensures Count(out) + Count(Matches(list, id)) == Count(list)
    decreases list
  {
    out := [];
    var i := 0;
    while i < |list|
      invariant 0 <= i <= |list|
      invariant out == Pruned(list[..i], id)
    {
      var c := list[i];
      assert list[..i + 1] == list[..i] + [c];
      PrunedConcat(list[..i], [c], id);
      assert [c][1..] == [];
      if c.id == id {
        i := i + 1;
        continue;
      }
      var next := c;
      if |c.replies| > 0 {
        var sub := RemoveCommentSubtree(c.replies, id);
        next := c.(replies := sub);
      }
      out := out + [next];
      i := i + 1;
    }
    assert list[..|list|] == list;
    RemoveLeavesNone(list, id);
    RemoveCount(list, id);
  }

  // ---------------------------------------------------------------------------

  /** An id that occurs nowhere leaves the forest as it was. */
  lemma {:induction false} RemoveAbsent(f: seq<Comment>, id: int)
    requires Occurrences(f, id) == 0
    ensures Pruned(f, id) == f
  {
    if f != [] {
      RemoveAbsent(f[0].replies, id);
      RemoveAbsent(f[1..], id);
    }
  }

  /** No node carrying the id is left, at any depth. */
  lemma {:induction false} RemoveLeavesNone(f: seq<Comment>, id: int)
    ensures Occurrences(Pruned(f, id), id) == 0
  {
    if f != [] {
      var kept :=
        if f[0].id == id then []
        else if |f[0].replies| > 0 then [f[0].(replies := Pruned(f[0].replies, id))]
        else [f[0]];
      RemoveLeavesNone(f[1..], id);
      OccurrencesConcat(kept, Pruned(f[1..], id), id);
      if f[0].id != id {
        RemoveLeavesNone(f[0].replies, id);
        assert kept[1..] == [];
      }
    }
  }

  /** The forest shrinks by exactly the sizes of the dropped threads. */
  lemma {:induction false} RemoveCount(f: seq<Comment>, id: int)
    ensures Count(Pruned(f, id)) + Count(Matches(f, id)) == Count(f)
  {
    if f != [] {
      var kept :=
        if f[0].id == id then []
        else if |f[0].replies| > 0 then [f[0].(replies := Pruned(f[0].replies, id))]
        else [f[0]];
      var m0 := if f[0].id == id then [f[0]] else Matches(f[0].replies, id);
      RemoveCount(f[1..], id);
      CountConcat(kept, Pruned(f[1..], id));
      CountConcat(m0, Matches(f[1..], id));
      if f[0].id == id {
        assert Count(m0) == Size(f[0]);
      } else {
        RemoveCount(f[0].replies, id);
        assert Count(kept) == 1 + Count(Pruned(f[0].replies, id)) by {
          assert kept[1..] == [];
        }
      }
    }
  }

  /** The nodes of `f` split exactly into those of the pruned forest and
      those of the dropped threads. */
  ghost predicate Partitioned(f: seq<Comment>, id: int)
  {
    multiset(Preorder(f)) == multiset(Preorder(Pruned(f, id))) + multiset(Preorder(Matches(f, id)))
  }

  /** The nodes of the forest split exactly into the survivors and the nodes
      of the dropped threads: nothing outside a dropped thread is lost, and
      no descendant of a dropped node survives. */
  lemma {:induction false} RemovePartition(f: seq<Comment>, id: int)
    ensures multiset(Preorder(f))
         == multiset(Preorder(Pruned(f, id))) + multiset(Preorder(Matches(f, id)))
  {
    if f != [] {
      RemovePartition(f[1..], id);
      if f[0].id == id {
        PartitionAtMatch(f, id);
      } else {
        RemovePartition(f[0].replies, id);
        PartitionPastMatch(f, id);
      }
    }
  }

  lemma PartitionAtMatch(f: seq<Comment>, id: int)
    requires f != [] && f[0].id == id
    requires Partitioned(f[1..], id)
    ensures Partitioned(f, id)
  {
    var thread := [Strip(f[0])] + Preorder(f[0].replies);
    PreorderConcat([f[0]], Matches(f[1..], id));
    assert [f[0]][1..] == [];
    assert Pruned(f, id) == Pruned(f[1..], id);
    assert Preorder(Matches(f, id)) == thread + Preorder(Matches(f[1..], id));
    assert Preorder(f) == thread + Preorder(f[1..]);
  }

  lemma PartitionPastMatch(f: seq<Comment>, id: int)
    requires f != [] && f[0].id != id
    requires Partitioned(f[0].replies, id) && Partitioned(f[1..], id)
    ensures Partitioned(f, id)
  {
    var x := Strip(f[0]);
    var c := if |f[0].replies| > 0 then f[0].(replies := Pruned(f[0].replies, id)) else f[0];
    PreorderConcat([c], Pruned(f[1..], id));
    PreorderConcat(Matches(f[0].replies, id), Matches(f[1..], id));
    assert [c][1..] == [];
    assert Strip(c) == x;
    assert Pruned(f, id) == [c] + Pruned(f[1..], id);
    Regroup([x], Preorder(f[0].replies), Preorder(Pruned(f[0].replies, id)), Preorder(Matches(f[0].replies, id)),
            Preorder(f[1..]), Preorder(Pruned(f[1..], id)), Preorder(Matches(f[1..], id)));
  }

  lemma Regroup(x: seq<Comment>, a: seq<Comment>, ka: seq<Comment>, da: seq<Comment>,
                b: seq<Comment>, kb: seq<Comment>, db: seq<Comment>)
    requires multiset(a) == multiset(ka) + multiset(da)
    requires multiset(b) == multiset(kb) + multiset(db)
    ensures multiset(x + a + b) == multiset(x + ka + kb) + multiset(da + db)
  {
  }

  /** What survives depends only on the skeleton: nothing inside a dropped
      thread affects the result. Where the survivors sit is stated by
      `RemoveDeletesThreads`. */
  lemma {:induction false} RemoveDeletesPlaceholders(f: seq<Comment>, id: int)
    ensures Pruned(Skeleton(f, id), id) == Pruned(f, id)
  {
    if f != [] {
      var s := Skeleton(f, id);
      assert s[1..] == Skeleton(f[1..], id);
      RemoveDeletesPlaceholders(f[1..], id);
      if f[0].id != id {
        RemoveDeletesPlaceholders(f[0].replies, id);
      }
    }
  }

  /** Removal deletes whole threads and nothing else: every survivor, at
      every depth, stays under its own parent among its own siblings, in
      their order. */
  lemma {:induction false} RemoveDeletesThreads(f: seq<Comment>, id: int)
    ensures ThreadsDeleted(Pruned(f, id), f)
  {
    if f != [] {
      RemoveDeletesThreads(f[1..], id);
      if f[0].id == id {
        assert Pruned(f, id) == Pruned(f[1..], id);
      } else {
        RemoveDeletesThreads(f[0].replies, id);
        var c := if |f[0].replies| > 0 then f[0].(replies := Pruned(f[0].replies, id)) else f[0];
        var r := Pruned(f, id);
        assert r == [c] + Pruned(f[1..], id);
        assert r[0] == c && r[1..] == Pruned(f[1..], id);
        assert c.replies == Pruned(f[0].replies, id);
      }
    }
  }

  /** For an id that occurs exactly once, the forest loses exactly that
      node's thread. */
  lemma RemoveOnce(f: seq<Comment>, id: int)
    requires Occurrences(f, id) == 1
    ensures Find(f, id).Some?
    ensures Count(Pruned(f, id)) == Count(f) - Size(Find(f, id).value)
    ensures Occurrences(Pruned(f, id), id) == 0
  {
    MatchesOnce(f, id);
    RemoveCount(f, id);
    RemoveLeavesNone(f, id);
  }

  /** The surviving nodes are nodes of the original forest, unchanged apart
      from their replies, in their original depth-first order. */
  lemma {:induction false} RemoveKeepsOrder(f: seq<Comment>, id: int)
    ensures IsSubseq(Preorder(Pruned(f, id)), Preorder(f))
  {
    if f != [] {
      var rest := Preorder(f[1..]);
      var whole := [Strip(f[0])] + Preorder(f[0].replies);
      assert Preorder(f) == whole + rest;
      RemoveKeepsOrder(f[1..], id);
      if f[0].id == id {
        assert Pruned(f, id) == Pruned(f[1..], id);
        SubseqDrop(Preorder(Pruned(f[1..], id)), whole, rest);
        assert IsSubseq(Preorder(Pruned(f[1..], id)), whole + rest);
      } else {
        var c := if |f[0].replies| > 0 then f[0].(replies := Pruned(f[0].replies, id)) else f[0];
        var kept := [c];
        assert Pruned(f, id) == kept + Pruned(f[1..], id);
        PreorderConcat(kept, Pruned(f[1..], id));
        assert kept[1..] == [];
        assert Preorder(kept) == [Strip(c)] + Preorder(Pruned(f[0].replies, id));
        assert Strip(c) == Strip(f[0]);
        RemoveKeepsOrder(f[0].replies, id);
        SubseqRefl([Strip(f[0])]);
        SubseqConcat([Strip(f[0])], [Strip(f[0])], Preorder(Pruned(f[0].replies, id)), Preorder(f[0].replies));
        SubseqConcat(Preorder(kept), whole, Preorder(Pruned(f[1..], id)), rest);
      }
    }
  }
}
