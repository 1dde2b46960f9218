/** The discussion view's state and the handlers that step it. Every remote
    call is a boolean argument saying whether it succeeded, and the record
    the server creates is an argument too. A handler that changes state
    before awaiting its call is split at the await: `BeginX` runs up to the
    call, `SettleX` runs after it, and `HandleX` is the two run back to back.
    `HandleDelete` changes nothing before its call, so it is one step that
    runs when the call settles. */
module CommentsView {
  import opened Forest
  import opened ForestUpdate
  import opened ForestInsert
  import opened ForestRemove
  import opened TopLevel
  import opened Text

  class Comments {
    /** Roots revealed per page. */
    const pageSize: int
    /** A session token is present. */
    var hasToken: bool
    var comments: seq<Comment>
    /** Roots revealed so far. */
    var visibleTop: int
    var loading: bool
    /** Parents whose reply is in flight. */
    var postingIds: map<int, bool>
    /** The draft of a new root comment. */
    var rootText: string
    /** Pages revealed so far. */
    ghost var pages: nat

    /** The counter of revealed roots only ever holds whole pages, at least
        one of them. */
    ghost predicate Valid()
      reads this
    {
      pageSize > 0 && pages >= 1 && visibleTop == pages * pageSize
    }

    constructor (pageSize: int, hasToken: bool)
      requires pageSize > 0
      ensures Valid()
      ensures this.pageSize == pageSize && this.hasToken == hasToken
      ensures comments == [] && visibleTop == pageSize && loading
      ensures postingIds == map[] && rootText == ""
    {
      this.pageSize := pageSize;
      this.hasToken := hasToken;
      comments := [];
      visibleTop := pageSize;
      pages := 1;
      loading := true;
      postingIds := map[];
      rootText := "";
    }

    /** The two effects that run when the token changes: without a token the
        forest is emptied; with one the forest is fetched (kept as it was if
        the fetch fails) and the revealed count is reset to one page. Either
        way loading ends. */
    method TokenChanged(present: bool, fetchOk: bool, fetched: seq<Comment>)
      requires Valid()
      modifies this
      ensures Valid()
      ensures hasToken == present && !loading
      ensures comments == (if !present then [] else if fetchOk then fetched else old(comments))
      ensures visibleTop == (if present then pageSize else old(visibleTop))
      ensures postingIds == old(postingIds) && rootText == old(rootText)
    {
      hasToken := present;
      if !present {
        comments := [];
        loading := false;
      } else {
        // getComments() settles here
        if fetchOk {
          comments := fetched;
        }
        loading := false;
      }
      if present {
        visibleTop := pageSize;
        pages := 1;
      }
    }

    /** "Load more comments": one more page of roots. */
    method LoadMore()
      requires Valid()
      modifies this`visibleTop, this`pages
      ensures Valid()
      ensures visibleTop == old(visibleTop) + pageSize
    {
      visibleTop := visibleTop + pageSize;
      pages := pages + 1;
      NextPage(pages - 1, pageSize);
    }

    method EditRootText(text: string)
      modifies this`rootText
      ensures rootText == text
    {
      rootText := text;
    }

    /** What the view shows: the revealed roots, newest first, the number of
        comments at all depths, and whether "load more" is offered. */
    method Render() returns (top: seq<Comment>, total: nat, loadMore: bool)
      requires Valid()
      ensures NewestFirst(top) && multiset(top) <= multiset(comments)
      ensures |top| == Min(|comments|, visibleTop)
      ensures top == SortNewestFirst(comments)[..|top|]
      ensures total == Count(comments)
      ensures loadMore <==> hasToken && |top| < |comments|
    {
      top := TopToRender(SortNewestFirst(comments), visibleTop);
      total := CountComments(comments);
      loadMore := CanLoadMore(hasToken, visibleTop, |comments|);
      LoadMoreIffHidden(comments, visibleTop, hasToken);
    }

    // -------------------------------------------------------------------------
    // Upvote: optimistic increment, floored decrement if the call fails

    method BeginUpvote(id: int) returns (started: bool)
      modifies this`comments
      ensures started == hasToken
      ensures comments == if started then UpdateComment(old(comments), id, AddUpvote) else old(comments)
      ensures NonNegative(old(comments)) ==> NonNegative(comments)
    {
      started := hasToken;
      if !started {
        return;
      }
      if NonNegative(comments) {
        UpvoteKeepsNonNegative(comments, id, AddUpvote);
      }
      comments := UpdateComment(comments, id, AddUpvote);
    }

    method SettleUpvote(id: int, remoteOk: bool)
      modifies this`comments
      ensures comments == if remoteOk then old(comments) else UpdateComment(old(comments), id, RemoveUpvote)
      ensures NonNegative(old(comments)) ==> NonNegative(comments)
    {
      // upvoteComment(id) has settled
      if !remoteOk {
        if NonNegative(comments) {
          UpvoteKeepsNonNegative(comments, id, RemoveUpvote);
        }
        comments := UpdateComment(comments, id, RemoveUpvote);
      }
    }

    /** A failed upvote on a forest of non-negative counts leaves the forest
        exactly as it was; a successful one adds one upvote. */
    method HandleUpvote(id: int, remoteOk: bool)
      modifies this`comments
      ensures !hasToken ==> comments == old(comments)
      ensures hasToken && remoteOk ==> comments == UpdateComment(old(comments), id, AddUpvote)
      ensures !remoteOk && NonNegative(old(comments)) ==> comments == old(comments)
      ensures NonNegative(old(comments)) ==> NonNegative(comments)
    {
      var started := BeginUpvote(id);
      if started {
        SettleUpvote(id, remoteOk);
        if !remoteOk && NonNegative(old(comments)) {
          RollbackUndoesUpvote(old(comments), id);
        }
      }
    }

    // -------------------------------------------------------------------------
    // Delete: only after the user confirms and the server agrees

    method HandleDelete(id: int, confirmed: bool, remoteOk: bool)
      modifies this`comments
      ensures comments == if hasToken && confirmed && remoteOk then Pruned(old(comments), id) else old(comments)
      ensures hasToken && confirmed && remoteOk ==> Occurrences(comments, id) == 0
    {
      if !hasToken || !confirmed {
        return;
      }
      // apiDeleteComment(id) settles here
      if remoteOk {
        comments := RemoveCommentSubtree(comments, id);
      }
    }

    // -------------------------------------------------------------------------
    // Reply: mark the parent busy, append the created reply on success, clear
    // the mark however the call ends

    method BeginReply(parentId: int) returns (started: bool)
      modifies this`postingIds
      ensures started == hasToken
      ensures postingIds == if started then old(postingIds)[parentId := true] else old(postingIds)
    {
      started := hasToken;
      if started {
        postingIds := postingIds[parentId := true];
      }
    }

    method SettleReply(parentId: int, remoteOk: bool, created: Comment)
      modifies this`comments, this`postingIds
      ensures comments == if remoteOk then InsertReply(old(comments), parentId, created) else old(comments)
      ensures postingIds == old(postingIds)[parentId := false]
    {
      // createComment(text, parentId) has settled
      if remoteOk {
        comments := InsertReply(comments, parentId, created);
      }
      postingIds := postingIds[parentId := false];
    }

    /** After the call settles the parent is no longer busy and every other
        entry is as it was; the reply is in the forest only on success. */
    method HandleReply(parentId: int, remoteOk: bool, created: Comment)
      modifies this`comments, this`postingIds
      ensures hasToken ==> parentId in postingIds && !postingIds[parentId]
      ensures hasToken ==> forall p :: p != parentId ==>
                (p in postingIds <==> p in old(postingIds)) &&
                (p in postingIds ==> postingIds[p] == old(postingIds)[p])
      ensures !hasToken ==> postingIds == old(postingIds)
      ensures comments == if hasToken && remoteOk then InsertReply(old(comments), parentId, created)
                          else old(comments)
    {
      var started := BeginReply(parentId);
      if started {
        SettleReply(parentId, remoteOk, created);
      }
    }

    // -------------------------------------------------------------------------
    // New root comment: refused without a token or with a blank draft

    /** Returns the text sent to the server, if a call is made. */
    method BeginCreateRoot() returns (sent: Option<string>)
      modifies this`loading
      ensures sent == if hasToken && !Blank(rootText) then Some(Trim(rootText)) else None
      ensures sent.Some? ==> sent.value != [] && loading
      ensures sent.None? ==> loading == old(loading)
    {
      TrimEmptyIffBlank(rootText);
      if !hasToken {
        return None;
      }
      var text := Trim(rootText);
      if text == [] {
        return None;
      }
      loading := true;
      sent := Some(text);
    }

    method SettleCreateRoot(remoteOk: bool, created: Comment)
      modifies this`comments, this`rootText, this`loading
      ensures comments == if remoteOk then [created] + old(comments) else old(comments)
      ensures rootText == if remoteOk then "" else old(rootText)
      ensures !loading
    {
      // createComment(text, null) has settled
      if remoteOk {
        comments := [created] + comments;
        rootText := "";
      }
      loading := false;
    }

    /** Without a token or with a blank draft nothing changes and nothing is
        sent; on success the created comment comes first and the draft is
        cleared. */
    method HandleCreateRoot(remoteOk: bool, created: Comment) returns (sent: Option<string>)
      modifies this`comments, this`rootText, this`loading
      ensures sent == if hasToken && !Blank(old(rootText)) then Some(Trim(old(rootText))) else None
      ensures sent.None? ==> comments == old(comments) && rootText == old(rootText) && loading == old(loading)
      ensures sent.Some? && remoteOk ==> comments == [created] + old(comments) && rootText == ""
      ensures sent.Some? && !remoteOk ==> comments == old(comments) && rootText == old(rootText)
      ensures sent.Some? ==> !loading
    {
      sent := BeginCreateRoot();
      if sent.Some? {
        SettleCreateRoot(remoteOk, created);
      }
    }
  }

  lemma NextPage(p: nat, size: int)
    ensures (p + 1) * size == p * size + size
  {
  }

  /** Twelve roots, pages of five: five shown, then ten, then all twelve, at
      which point "load more" is no longer offered. */
  method PaginationScenario(roots: seq<Comment>)
    requires |roots| == 12
  {
    var view := new Comments(5, true);
    view.TokenChanged(true, true, roots);
    var top, total, more := view.Render();
    assert |top| == 5 && more;
    view.LoadMore();
    top, total, more := view.Render();
    assert |top| == 10 && more;
    view.LoadMore();
    top, total, more := view.Render();
    assert |top| == 12 && !more;
    assert view.visibleTop == 15;
  }
}
