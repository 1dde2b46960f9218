# Comment thread widget: the comment forest and its view state

This project models the logic of the discussion widget in
`components/Comments.tsx`. The widget holds a forest of comments. Each comment
has an id, an upvote count, a creation time and an ordered list of replies.
Four recursive helpers work on the forest:

- `countComments` counts the nodes at every depth.
- `updateComment` replaces the node carrying an id.
- `insertReply` appends a reply under a parent.
- `removeCommentSubtree` drops a node together with its whole thread.

On top of these sit the view rules: root comments are sorted newest first and
revealed one page at a time, with a "load more" control. The handlers for
upvote, delete, reply and new root comment update the state optimistically or
after the server confirms.

Layout:

- `forest.dfy` (module `Forest`): the `Comment` datatype and the queries the
  proofs share: node count, depth-first listing, occurrences of an id, the
  first node carrying an id, the topmost nodes carrying an id, a
  subsequence relation, and the relation between a forest and the same
  forest with whole threads deleted. It also holds `countComments` as a
  loop, proved against the node count.
- `update.dfy` (`ForestUpdate`): `updateComment` and the two upvote mutators.
- `insert.dfy` (`ForestInsert`): `insertReply`.
- `remove.dfy` (`ForestRemove`): `removeCommentSubtree` as the source's loop,
  proved against the specification function `Pruned`.
- `toplevel.dfy` (`TopLevel`): newest-first ordering, the rendered prefix and
  the load-more test.
- `text.dfy` (`Text`): JavaScript `String.prototype.trim`, used to reject a
  blank draft.
- `view.dfy` (`CommentsView`): a class holding the handler state (`comments`,
  `visibleTop`, `loading`, `postingIds`, `rootText`, whether a token is
  present). Upvote, reply and new root comment each have three methods
  (`BeginX`, `SettleX`, `HandleX`). Delete, the token change, load-more,
  editing the draft and rendering have one method each.

How the outside world appears in the model:

- Each remote call (`getComments`, `upvoteComment`, `apiDeleteComment`,
  `createComment`) is a boolean argument saying whether it succeeded.
- The record the server creates is an argument.
- `window.confirm` is a boolean argument.
- `window.alert` changes no state, so it is simply a return.
- A handler that changes state before awaiting its call is split at the
  `await`. `BeginX` runs the part before the call and `SettleX` the part
  after it. `HandleX` runs both, one after the other.
- `HandleDelete` changes nothing before its call: it only checks the token
  and asks `window.confirm`. So it is one step that runs when the call
  settles.
- `PAGE_SIZE` (5 in `lib/config.ts`) is a positive constructor argument.
- `created_at` is an integer timestamp.

The model follows the code where its behaviour may be unexpected:

- A failed initial fetch does not leave the view loading forever. The
  `finally` at lines 29-31 clears `loading`, and the forest keeps its previous
  value.
- The revealed-roots counter is never capped. With 12 roots and pages of 5 it
  goes 5, 10, 15. Only the rendered slice is capped (line 48), and "load more"
  disappears because 15 is not less than 12 (line 51).
- The token effect does not re-enter the loading state. When a token
  arrives after the first load, `loading` is not set back to true (lines
  18-40). While the fetch is in flight, the view shows the previous forest
  with `loading` false. The model runs the fetch as one step, with no
  Begin/Settle split, so this in-flight state is not represented.
- `updateComment` and `insertReply` stop at a node that matches. A node
  further down that carries the same id is left alone (lines 180 and
  188-191).

The all-depth statements about these helpers use the skeleton of a forest
for an id. It is the forest with every topmost node carrying the id replaced
by a placeholder. Two forests with the same skeleton and the same topmost
matches are equal, so fixing both fixes the whole result.
For removal, the relation `ThreadsDeleted(a, b)` holds when `a` is `b` with
some whole threads deleted. Each remaining node keeps its own fields and stays
under its own parent, among its siblings, in their order.

## Model

| member | source | states |
|---|---|---|
| Forest.CountComments | components/Comments.tsx:170-176 | The loop's total is the number of comments at all depths, which is the length of the depth-first listing. |
| Forest.CountConcat | components/Comments.tsx:170-176 | The count of two lists placed one after the other is the sum of their counts. |
| Forest.CountIsPreorderLength | components/Comments.tsx:170-176 | The node count equals the number of nodes in the depth-first listing. |
| Forest.OccurrencesInPreorder | components/Comments.tsx:178-184 | The occurrences of an id at any depth are exactly the listed nodes that carry it. |
| Forest.FindNoneIffAbsent | components/Comments.tsx:178-184 | A depth-first search for an id finds nothing exactly when the id occurs nowhere. |
| Forest.MatchesBound | components/Comments.tsx:178-184 | There are no more topmost matches than occurrences of the id, and at least one when the id occurs. |
| Forest.MatchesHead | components/Comments.tsx:178-184 | The first topmost match is the node the depth-first search returns. |
| Forest.MatchesOnce | components/Comments.tsx:178-184 | An id that occurs exactly once has exactly one topmost match: the node found. |
| Forest.Skeleton | components/Comments.tsx:178-184 | The forest with each topmost node carrying the id replaced by a placeholder. At the top level it keeps the length of the list, and a node of it carries the id exactly where the forest's node does. |
| Forest.PlaceholdersAreMatches | components/Comments.tsx:178-184 | The skeleton has exactly one placeholder per topmost match. |
| Forest.SkeletonDetermines | components/Comments.tsx:178-184 | The skeleton and the topmost matches in order determine the forest: two forests that agree on both are equal. |
| ForestUpdate.UpdateComment | components/Comments.tsx:178-184 | At the top level: the list keeps its length and order, a node carrying the id becomes `mut` of that node, and every other node keeps its own fields and its number of replies. The deeper levels are stated by `UpdateReplacesMatches`. |
| ForestUpdate.UpdateReplacesMatches | components/Comments.tsx:178-184 | At every depth, for a mutator that keeps ids: the skeleton is unchanged, so every node the walk passes by keeps its data, depth and position. Every topmost node carrying the id, not only the first, becomes `mut` of itself. |
| ForestUpdate.UpdateCharacterised | components/Comments.tsx:178-184 | Any forest with the same skeleton whose topmost matches are the mutator's images of the old ones is the updated forest. |
| ForestUpdate.UpdateAbsent | components/Comments.tsx:178-184 | An id that occurs nowhere returns the forest unchanged. |
| ForestUpdate.UpdateFindsFirst | components/Comments.tsx:178-184 | Take a mutator that keeps ids. When the id occurs, the first node carrying it is now the mutator's image of the node that was there. |
| ForestUpdate.UpdateOnlyTouchesMatches | components/Comments.tsx:178-184 | Take a mutator that keeps ids and replies. The depth-first listing keeps its length, its ids and every node that does not carry the id. The count is unchanged. |
| ForestUpdate.AddUpvote | components/Comments.tsx:55 | The optimistic mutator adds exactly one upvote and keeps id, time and replies. |
| ForestUpdate.RemoveUpvote | components/Comments.tsx:59 | The rollback mutator never gives a negative count. It removes exactly one upvote when there was at least one, and keeps id, time and replies. |
| ForestUpdate.RollbackUndoesUpvote | components/Comments.tsx:55-59 | On a forest whose counts are all non-negative, the increment followed by the floored decrement gives back the same forest. |
| ForestUpdate.UpvoteKeepsNonNegative | components/Comments.tsx:55-59 | Neither upvote mutator makes any count in the forest negative. |
| ForestInsert.InsertReply | components/Comments.tsx:186-195 | At the top level: the list keeps its length, every node keeps its own fields, a node carrying the parent id gets the new reply after its existing replies, and every other node keeps its number of replies. The deeper levels are stated by `InsertAdoptsAtMatches`. |
| ForestInsert.InsertAdoptsAtMatches | components/Comments.tsx:186-195 | At every depth: the skeleton is unchanged, so every node the walk passes by keeps its data, depth and position. Every topmost node carrying the parent id, not only the first, gets the reply after its existing replies. |
| ForestInsert.InsertCharacterised | components/Comments.tsx:186-195 | Any forest with the same skeleton whose topmost parents are the old ones with the reply appended is the result of the insertion. |
| ForestInsert.InsertAbsent | components/Comments.tsx:186-195 | A parent id that occurs nowhere returns the forest unchanged. |
| ForestInsert.InsertCount | components/Comments.tsx:186-195 | The count grows by the size of the reply's thread once for every topmost node carrying the parent id. |
| ForestInsert.InsertFindsParent | components/Comments.tsx:186-195 | When the parent occurs, the first node carrying its id is the node found before, with the reply appended. |
| ForestInsert.InsertReplyOnce | components/Comments.tsx:186-195 | For a parent id that occurs exactly once, the parent keeps its replies in order, has the new reply last, and the count grows by `Count([newReply])`. |
| ForestInsert.InsertTwice | components/Comments.tsx:186-195 | Inserting the same reply twice gives two copies at the end of the parent's replies. There is no deduplication. |
| ForestInsert.InsertKeepsNodes | components/Comments.tsx:186-195 | Every node already in the forest is still there, in the same depth-first order. |
| ForestRemove.Pruned | components/Comments.tsx:197-211 | The top level gets no longer, and no surviving node at the top level carries the id. The deeper levels are stated by `RemoveDeletesThreads`, `RemoveLeavesNone` and `RemovePartition`. |
| ForestRemove.PrunedConcat | components/Comments.tsx:197-211 | Pruning two lists placed one after the other gives the two pruned lists placed one after the other. |
| ForestRemove.RemoveCommentSubtree | components/Comments.tsx:197-211 | The loop with `push` computes `Pruned`. Its result has no node carrying the id, and its count plus the counts of the dropped threads is the original count. |
| ForestRemove.RemoveAbsent | components/Comments.tsx:197-211 | An id that occurs nowhere returns the forest unchanged. |
| ForestRemove.RemoveLeavesNone | components/Comments.tsx:197-211 | No node carrying the id is left at any depth. |
| ForestRemove.RemoveCount | components/Comments.tsx:197-211 | The count drops by exactly the sizes of the dropped threads. |
| ForestRemove.RemoveOnce | components/Comments.tsx:197-211 | For an id that occurs exactly once, the count drops by exactly the size of that node's thread. |
| ForestRemove.RemoveKeepsOrder | components/Comments.tsx:197-211 | The surviving nodes, each unchanged apart from its replies, keep their original depth-first order. |
| ForestRemove.RemovePartition | components/Comments.tsx:197-211 | The nodes of the forest split exactly into the survivors and the nodes of the dropped threads. Every node outside a dropped thread survives, and no descendant of a dropped node does. |
| ForestRemove.RemoveDeletesPlaceholders | components/Comments.tsx:197-211 | The result depends only on the skeleton: nothing inside a dropped thread affects it. |
| ForestRemove.RemoveDeletesThreads | components/Comments.tsx:197-211 | The result is the forest with whole threads deleted, at every depth. Every survivor keeps its own fields and stays under its own parent, among its own siblings, in their order. |
| TopLevel.InsertNewestFirst | components/Comments.tsx:42-45 | Inserting into a newest-first list keeps it newest first and adds exactly the one comment. |
| TopLevel.SortNewestFirst | components/Comments.tsx:42-45 | The sorted roots are a permutation of the roots and are non-increasing in creation time. |
| TopLevel.NewestFirstUnique | components/Comments.tsx:42-45 | When no two comments share a creation time, there is only one newest-first permutation. |
| TopLevel.OrderIndependentOfArrival | components/Comments.tsx:42-45 | When no two roots share a creation time, the rendered order does not depend on the order the server sent them in. |
| TopLevel.TopToRender | components/Comments.tsx:47-49 | The rendered roots are the first `min(length, visibleTop)` roots of the sorted list. |
| TopLevel.CanLoadMore | components/Comments.tsx:51 | "Load more" is offered exactly when a token is present and the rendered prefix, `min(roots, visibleTop)` long, is shorter than the list of roots. |
| TopLevel.LoadMoreIffHidden | components/Comments.tsx:47-51 | "Load more" is offered exactly when a token is present and the rendered prefix leaves out some roots. The rendered roots are newest first and are drawn from the roots. |
| Text.LeadingBlanks | components/Comments.tsx:94 | Counts the leading characters `trim` removes. The next character, if any, is not whitespace. |
| Text.TrailingBlanks | components/Comments.tsx:94 | Counts the trailing characters `trim` removes. The previous character, if any, is not whitespace. |
| Text.Trim | components/Comments.tsx:94-97 | The input is a blank prefix, then the result, then a blank suffix. The result neither starts nor ends with whitespace. |
| Text.TrimEmptyIffBlank | components/Comments.tsx:94 | A draft trims to the empty string exactly when all of it is whitespace. |
| CommentsView.Comments.constructor | components/Comments.tsx:12-16 | Initial state: no comments, one page revealed, loading, nothing posting, empty draft. |
| CommentsView.Comments.TokenChanged | components/Comments.tsx:18-40 | Without a token the forest is emptied. With a token the fetched forest is taken on success and kept on failure, and one page is revealed again. Loading ends either way. |
| CommentsView.Comments.LoadMore | components/Comments.tsx:156-158 | Adds one page to the revealed count. The count stays a whole number of pages. |
| CommentsView.Comments.EditRootText | components/Comments.tsx:123 | The draft becomes the typed text. |
| CommentsView.Comments.Render | components/Comments.tsx:42-51 | Returns the rendered roots, the total count and the load-more flag. The roots are newest first, drawn from the forest, and a prefix of the sorted roots whose length is the smaller of the number of roots and `visibleTop`. The total is the node count. The flag is set exactly when a token is present and some roots are hidden. |
| CommentsView.Comments.BeginUpvote | components/Comments.tsx:53-55 | Without a token nothing changes. Otherwise the optimistic increment is applied. |
| CommentsView.Comments.SettleUpvote | components/Comments.tsx:56-60 | On failure the floored decrement is applied. On success nothing changes. |
| CommentsView.Comments.HandleUpvote | components/Comments.tsx:53-61 | A failed upvote on a forest of non-negative counts leaves the forest exactly as it was. A successful one adds one upvote. Counts never become negative. |
| CommentsView.Comments.HandleDelete | components/Comments.tsx:63-73 | The subtree is removed only with a token, a confirmation and a successful call. Otherwise the forest is unchanged. After removal no node carries the id. |
| CommentsView.Comments.BeginReply | components/Comments.tsx:75-80 | Without a token nothing changes. Otherwise the parent is marked as posting. |
| CommentsView.Comments.SettleReply | components/Comments.tsx:81-86 | The reply is inserted only on success. The parent's posting flag is false afterwards, whatever the outcome. |
| CommentsView.Comments.HandleReply | components/Comments.tsx:75-87 | Once the call has settled, the parent's flag is false and every other flag is as before. The forest gains the reply only on success. |
| CommentsView.Comments.BeginCreateRoot | components/Comments.tsx:89-97 | Without a token or with a blank draft nothing is sent and nothing changes. Otherwise the trimmed, non-empty draft is sent and loading is set. |
| CommentsView.Comments.SettleCreateRoot | components/Comments.tsx:96-102 | On success the created comment is placed first and the draft is cleared. Loading ends either way. |
| CommentsView.Comments.HandleCreateRoot | components/Comments.tsx:89-103 | Without a token or with a blank draft, comments, draft and loading are unchanged. On success the created comment is prepended and the draft cleared. On failure both are kept. |

## Left out

- React rendering and the `CommentNode` component (lines 105-168, 213-271) are left out because they are presentation only. This covers the avatar initials, the relative-time text, collapse and expand, the Delete button shown only to the comment's author, the disabling of the reply input while its parent is posting, and the reply form's own trim of its draft (lines 219-224).
- `text`, `user` and `parent_id` are not modelled because the forest logic never reads them.
- The `AbortController` in the fetch effect is left out because its signal is never passed to the request, so it changes nothing.
- An unhandled rejection of the initial fetch is left out. Only its effect on state is modelled: the forest is kept and loading ends.
- A failed `createComment` in the reply handler (lines 81-86) and in the root-comment handler (lines 96-102) is not modelled as a rejection. Both use `try`/`finally` with no `catch`, so the error propagates out of the handler after the posting flag or `loading` is cleared. Only the effect on the widget's state is modelled: `SettleReply` and `SettleCreateRoot` with a failed call clear the flag or `loading` and change nothing else. For a reply, the rejection reaches the reply form's `submit` (line 221), which then skips clearing its draft and closing the form (lines 222-223). That form state belongs to `CommentNode` and is not modelled. For a root comment, the rejection goes unhandled behind the Post button.
- The state while the fetch of the token effect is in flight is not modelled, because `TokenChanged` runs the fetch as one step.
- Interleavings of concurrent handlers are not modelled. The Begin/Settle split lets a caller interleave them, but the guarantee of `HandleUpvote` is proved only for the two halves run back to back.
- Parsing `created_at` as a `Date` is left out because it is a foreign library. An unparsable date, whose comparator result is NaN, is not modelled.
- JavaScript numbers are doubles. Ids, counts and times are unbounded integers here, so precision loss beyond 2^53 is not modelled.
- A missing `replies` array is not modelled separately from an empty one. The two behave the same in every helper.
- TopLevel.SortNewestFirst: the ordering is stable (comments with equal times keep their arrival order, as the array sort does), but no lemma states stability. Uniqueness is proved only when creation times are distinct.
- ForestUpdate.UpdateOnlyTouchesMatches: stated only for mutators that keep ids and replies, which are the only ones the widget passes.
- `lib/api.ts`, `context/AuthContext.tsx`, `components/AuthDialog.tsx`, `components/HeaderAuthArea.tsx` and `lib/config.ts` are not part of this model. They are HTTP wrappers, session storage and forms. The session appears only as the "token present" flag.
