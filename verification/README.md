# Community feed core, in Dafny

This project models the core of a small community feed: a Django REST
backend with posts, threaded comments, likes on both, and a karma leaderboard.
The model covers three pieces of logic and the schema under them:

- **The comment tree of a post's detail view.** The post's comments are
  fetched once, oldest first. Each is indexed by id and linked to its
  parent's reply list, or to the root list when it has no parent. The tree is
  then serialised recursively, and every node carries its like count and
  whether the viewer liked it. A reply whose parent is not among the fetched
  comments is linked nowhere, so it and its whole subtree are dropped.
- **The like toggle of posts and comments.** A request removes the caller's
  like when there is one and inserts it otherwise. It reports the new state,
  the target's like count, and the karma the author gains or loses (5 for a
  post, 1 for a comment). An insert that loses a race against an identical
  request hits the unique constraint, and the request still reports
  `liked = true`.
- **The 24-hour leaderboard.** A user earns 5 karma for each like on one of
  their posts and 1 for each like on one of their comments. Only likes at or
  after `now - 24h` count. Users with positive karma are ranked best first
  and cut to five.
- **The schema** (`models.py`):
  - the entities;
  - `unique_together` on both like tables;
  - the default orderings (posts newest first, comments oldest first);
  - `on_delete=CASCADE` on every foreign key, including the comment's
    self-reference `parent`;
  - the label `str(post)`.

Files, one module each:

- `Wrappers.dfy`: `Option`, `Result`, `Min`.
- `Karma.dfy`: the points per kind of like.
- `Models.dfy`: the entities, like tables and unique constraint, `str(post)`, and the integrity of a snapshot.
- `Thread.dfy`: parent lookup and ancestry along `parent` links.
- `CommentTree.dfy`: the intended forest, and the builder as written (a method with its two loops) proved equal to it.
- `CommentForest.dfy`: what the forest contains.
- `Ordering.dfy`: `order_by`, the post feed, and the comment fetch.
- `Cascade.dfy`: deletion.
- `LikeToggle.dfy`: the like endpoints.
- `Leaderboard.dfy`: karma and ranking, both as written and as intended.

Timestamps are integer seconds. The current time, the calling user, and the
timestamp of a competing request's row are parameters.

The builder requires the fetched list to have distinct ids and to list every
parent before its replies (`CommentTree.Fetched`). Creation order gives this
whenever a reply is stamped strictly later than its parent
(`Ordering.ThreadIsFetched`).

The window test at `backend/api/tests.py:261-288` expects karma to go to the
user who gave the in-window like (user 2), not to the author of the liked
post (user 1). The view credits the author (`post__author=OuterRef('pk')`),
and the model follows the view: `Leaderboard.WindowFixture` gives user 1 a
karma of 5 and user 2 a karma of 0 on that data.

## Model

| member | source | states |
|---|---|---|
| Karma.Points | backend/api/views.py:68-86 | a like is worth a positive number of points to the liked item's author: 5 for a post like, as here, and 1 for a comment like, as at `backend/api/views.py:145-160` and in the leaderboard's `Count('id') * 5` and `* 1` (`backend/api/views.py:195-209`) |
| Models.RowsFor | backend/api/views.py:89 | the rows counted for a target are exactly the table's rows with that target |
| Models.PairCount | backend/api/views.py:66 | the number of rows for a (user, target) pair is zero exactly when the existence check finds none, and never exceeds the target's count |
| Models.ConsUnique | backend/api/models.py:77 | a table with one more row in front satisfies `unique_together` iff the rest does and the new row's pair is not already in it |
| Models.UniquePairCount | backend/api/models.py:103 | under the unique constraint every (user, target) pair has at most one row |
| Models.InsertLike | backend/api/models.py:77 | an insert fails with `IntegrityError` exactly when the pair already has a row; otherwise it appends the row and keeps the table unique |
| Models.AppendKeepsUnique | backend/api/models.py:77 | appending a row whose pair is absent keeps the table unique |
| Models.SecondInsertFails | backend/api/tests.py:155-173 | a second like with the same user and target is rejected with `IntegrityError` |
| Models.DeleteFirst | backend/api/views.py:66-72 | removing the found like drops exactly one row of the pair when there is one, so the target's count falls by one; the table is untouched when there is none; other pairs' rows are unchanged |
| Models.Truncate | backend/api/models.py:25 | `s[:n]` is the prefix of `s` of length `min(n, len(s))` |
| Models.PostLabel | backend/api/models.py:25 | `str(post)` starts with "Post by <username>: " and continues with the first 50 characters of the content |
| Thread.IndexOf | backend/api/serializers.py:95-98 | the id lookup finds the first comment with that id, and finds none exactly when no comment has it |
| Thread.ParentIdx | backend/api/serializers.py:103-106 | a reply's parent is found exactly when its parent id names a fetched comment, and it lies before the reply in creation order |
| Thread.ParentIdxUnique | backend/api/serializers.py:105-106 | with distinct ids, comment i is the parent found for j iff j's parent id is i's id |
| Thread.AncBelow | backend/api/models.py:35-41 | an ancestor along `parent` links never comes later in creation order |
| Thread.AncTrans | backend/api/models.py:35-41 | ancestry is transitive |
| Thread.AncChain | backend/api/models.py:35-41 | two ancestors of one comment are ordered by ancestry (the links form a tree) |
| Thread.RootedIffTopAncestor | backend/api/serializers.py:102-109 | a comment reaches a root by following parents iff some ancestor of it has no parent |
| Thread.AllRooted | backend/api/serializers.py:102-109 | when every parent id names a fetched comment, every comment reaches a root |
| CommentTree.UserAmong | backend/api/serializers.py:129 | membership of a user id among a comment's like user ids |
| CommentTree.HasLiked | backend/api/serializers.py:129 | `user_has_liked` holds iff the viewer is known (a truthy id) and has a like on the comment; it is false for anonymous viewers |
| CommentTree.KidsUpToSpec | backend/api/serializers.py:102-106 | after the first n steps of the linking loop, a comment's reply list is the replies among those n comments, in fetch order |
| CommentTree.RootsUpToSpec | backend/api/serializers.py:107-109 | after the first n steps, the root list is the parentless comments among those n, in fetch order |
| CommentTree.Kids | backend/api/serializers.py:104-106 | a comment's replies are exactly the fetched comments whose parent is it, in fetch order, all later than it |
| CommentTree.Roots | backend/api/serializers.py:107-109 | the roots are exactly the fetched comments without a parent, in fetch order |
| CommentTree.SerializeIsProject | backend/api/serializers.py:112-130 | the recursive serialisation over the built reply lists yields the intended subtree of each comment |
| CommentTree.IndexComments | backend/api/serializers.py:95-99 | the first loop maps every id to its comment and gives every comment an empty reply list |
| CommentTree.LinkOne | backend/api/serializers.py:102-108 | one step of the second loop: a reply is appended to its fetched parent's list and nowhere else, a reply with an unknown parent changes nothing, and a top-level comment is appended to the roots |
| CommentTree.LinkReplies | backend/api/serializers.py:102-109 | the second loop leaves every comment with exactly its fetched replies, in fetch order, and builds the root list; a reply with an unknown parent is linked nowhere |
| CommentTree.LinkFound | backend/api/serializers.py:105-106 | appending a reply to its found parent's list keeps the lists correct for one more step |
| CommentTree.LinkSkipped | backend/api/serializers.py:103-109 | a root or a reply with an unknown parent leaves every reply list correct for one more step |
| CommentTree.RootsUpToStep | backend/api/serializers.py:107-109 | one step of the loop appends the comment to the roots iff it has no parent |
| CommentTree.KidsUpToStep | backend/api/serializers.py:105-106 | one step of the loop appends the comment to a reply list iff its parent is that comment |
| CommentTree.GetComments | backend/api/serializers.py:68-133 | the builder returns `[]` for a post without comments and otherwise exactly the intended forest |
| CommentForest.RootsAreTopLevel | backend/api/serializers.py:107-109 | the top-level nodes are exactly the parentless comments, each once, in ascending `created_at` order when the fetch is |
| CommentForest.ProjectShape | backend/api/serializers.py:120-130 | each node carries the comment's id, post, parent, author, content and timestamp, its like count, and the viewer's `user_has_liked` |
| CommentForest.RepliesAreChildren | backend/api/serializers.py:115-117 | a node's replies are exactly the comments whose parent is that node, each once, in ascending `created_at` order when the fetch is |
| CommentForest.KidsDisjoint | backend/api/serializers.py:104-106 | the subtrees of a comment's replies share no comment |
| CommentForest.FlatForest | backend/api/serializers.py:112-133 | the forest read in pre-order is the comments that reach a root, each exactly once |
| CommentForest.Occurrences | backend/api/serializers.py:95-109 | each fetched comment appears in the forest once if it reaches a root and not at all otherwise, and nothing else appears |
| CommentForest.OrphanNowhere | backend/api/serializers.py:104-106 | a reply whose parent id is not among the fetched comments, and every descendant of it, appears nowhere in the forest |
| CommentForest.CompleteWhenParentsExist | backend/api/serializers.py:95-109 | when every parent id names a fetched comment, the forest holds every comment exactly once |
| CommentForest.NodeFields | backend/api/serializers.py:121-129 | every node anywhere in the forest is the serialisation of some fetched comment that reaches a root: stored ids, like count and `user_has_liked` |
| CommentForest.ChainDepth | backend/api/tests.py:416-463 | a linear chain of replies gives one root whose depth is the chain's length |
| Ordering.Insert | backend/api/models.py:56 | inserting into a sorted list keeps it sorted and adds exactly that element |
| Ordering.SortBy | backend/api/serializers.py:84 | `order_by` returns a permutation in non-decreasing key order |
| Ordering.Feed | backend/api/models.py:22 | the post list holds every post once, newest first |
| Ordering.PostComments | backend/api/serializers.py:82 | `post.comments` holds exactly the comments whose post is this one |
| Ordering.FetchThread | backend/api/serializers.py:81-85 | the fetch is a permutation of the post's comments in ascending `created_at` order |
| Ordering.ThreadIsFetched | backend/api/models.py:56 | when ids are distinct and replies are stamped after their parents, the fetch lists every parent before its replies |
| Ordering.DistinctIdsOfSub | backend/api/serializers.py:81-85 | distinct comment ids survive filtering and reordering |
| Cascade.Kept | backend/api/models.py:35-41 | the comments that survive a deletion are those not reached by the cascade, in table order |
| Cascade.KeptPosts | backend/api/models.py:12-16 | the surviving posts are those neither deleted nor written by the deleted user, and their ids stay distinct |
| Cascade.KeptUsers | backend/api/models.py:5-7 | the surviving users are all but the deleted one, and their ids stay distinct |
| Cascade.KeptLikes | backend/api/models.py:64-98 | the surviving likes are those whose user, post or comment survives, and the table stays unique |
| Cascade.Delete | backend/api/models.py:12-98 | a deletion removes exactly the rows that depend on the deleted row, directly or through other removed rows |
| Cascade.FallsIffHitAbove | backend/api/models.py:35-41 | a comment is removed iff it or one of its ancestors is hit directly |
| Cascade.CommentDeletionRemovesSubtree | backend/api/models.py:40 | deleting a comment removes exactly the comment and its reply subtree |
| Cascade.PostDeletionRemovesThreads | backend/api/models.py:30-34 | deleting a post removes exactly the comments under one of its comments |
| Cascade.KeptCommentsOrdered | backend/api/models.py:56 | the surviving comments keep distinct ids and parents before replies |
| Cascade.CommentsStayValid | backend/api/models.py:35-41 | after a deletion every surviving reply's parent still exists |
| Cascade.ReferencesStayValid | backend/api/models.py:30-98 | after a deletion every surviving comment's post and every surviving like's target still exist |
| Cascade.UsersStayValid | backend/api/models.py:12-93 | after a deletion every surviving post's and comment's author and every surviving like's user still exist |
| Cascade.DeleteKeepsValid | backend/api/models.py:12-103 | a deletion keeps the schema: distinct user, post and comment ids; the `author`, `post`, `parent`, `user` and like-target foreign keys; and `unique_together` on both like tables |
| Cascade.PostDeletionClears | backend/api/models.py:30-72 | after a post is deleted no comment or like refers to it, and only that post and its likes are removed from those tables |
| Cascade.UserDeletionClears | backend/api/models.py:12-93 | after a user is deleted exactly the other users remain, exactly the posts by others remain, and no comment, like or comment on a removed post refers to the user |
| Cascade.CommentDeletionClears | backend/api/models.py:35-98 | after a comment is deleted no comment has its id or names it as parent, no like targets it, and posts and post likes are untouched |
| LikeToggle.RowsForAppend | backend/api/views.py:89 | counting the rows of a target distributes over concatenation |
| LikeToggle.UnlikeFacts | backend/api/views.py:68-72 | the unlike branch lowers the count by one, leaves other pairs alone and keeps the table unique with no row left for the pair |
| LikeToggle.LikeFacts | backend/api/views.py:73-81 | the like branch adds the pair, raises the count by one and leaves other pairs alone |
| LikeToggle.DeleteKeepsUnique | backend/api/models.py:77 | deleting a like keeps the table unique |
| LikeToggle.DeleteAppended | backend/api/tests.py:376-388 | unliking right after a like removes exactly the row the like added |
| LikeToggle.Toggle | backend/api/views.py:124-171 | liked iff no like existed; the karma change is +points or -points accordingly; the reported count is the target's rows after the change, one more or one fewer than before; other pairs are untouched; uniqueness holds with exactly one row for a liked pair; a lost insert race keeps the competing row and still reports liked |
| LikeToggle.LikeAction | backend/api/views.py:47-97 | an unknown target is a 404; otherwise only the like table of that kind changes and the response agrees with it |
| LikeToggle.LikeActionKeepsValid | backend/api/views.py:66-86 | a like request by a stored user keeps every schema constraint, including the like's user and target keys |
| LikeToggle.LikeThenUnlike | backend/api/tests.py:376-388 | like then unlike restores the table, reports one more and then the original count, and the karma changes cancel |
| LikeToggle.ConcurrentLikes | backend/api/views.py:82-86 | two racing likes leave the same single row, both report liked and the same count and karma |
| Leaderboard.PostAuthor | backend/api/views.py:198 | the `post__author` join finds an author exactly when a post has that id |
| Leaderboard.CommentAuthor | backend/api/views.py:206 | the `comment__author` join finds an author exactly when a comment has that id |
| Leaderboard.Earning | backend/api/views.py:196-201 | the subquery's count of the user's in-window likes, zero exactly when no row counts |
| Leaderboard.Subtotal | backend/api/views.py:196-209 | a subquery is NULL exactly when no like of its kind counts |
| Leaderboard.SqlAdd | backend/api/views.py:222-225 | SQL addition is NULL when either side is NULL |
| Leaderboard.KarmaCounts | backend/api/views.py:195-225 | intended karma is 5 per in-window post like plus 1 per in-window comment like; it is never negative and is zero exactly when no like counts |
| Leaderboard.AsWrittenKarma | backend/api/views.py:222-225 | the karma as written is NULL unless the user received both kinds of like, and then equals the intended karma |
| Leaderboard.AppendLike | backend/api/views.py:193-209 | one more like changes exactly its target's author's karma, by that kind's points, when the like is in the window |
| Leaderboard.LikeAtCutoffCounts | backend/api/views.py:193-197 | a like stamped exactly at `now - 24h` counts in full |
| Leaderboard.LikeBeforeCutoffIgnored | backend/api/views.py:197 | a like stamped one second before the cutoff adds nothing |
| Leaderboard.Positive | backend/api/views.py:226 | `filter(karma__gt=0)` keeps exactly the positive entries |
| Leaderboard.Top | backend/api/views.py:226 | at most five entries, `min(5, positives)` of them, all positive and drawn from the input, in non-increasing karma; any positive entry left out has no more karma than the fifth |
| Leaderboard.Scores | backend/api/views.py:195-225 | one entry per user, in table order, with the user's id and username and karma equal to 5 per in-window like on the user's posts plus 1 per in-window like on the user's comments |
| Leaderboard.ScoresAsWritten | backend/api/views.py:212-225 | as written, every user whose karma is non-NULL gets an entry with that karma, and every entry belongs to such a user |
| Leaderboard.RankingSound | backend/api/views.py:212-235 | the response lists stored users with their intended karma, positive, best first, at most five, and nobody positive left out beats the last one |
| Leaderboard.AsWrittenOmitsSingleSource | backend/api/views.py:222-226 | as written, a user whose karma comes from only one kind of like is never listed, though their intended karma is positive |
| Leaderboard.NullNotListed | backend/api/views.py:222-226 | as written, a user whose karma is NULL is never listed, since `karma__gt=0` rejects NULL |
| Leaderboard.FixtureScores | backend/api/tests.py:212-259 | on the karma test's data user 1 is meant to score 5, user 2 to score 6 and user 3 nothing; the likes carry the timestamps the test means, not the ones `auto_now_add` would store |
| Leaderboard.FixtureAsWritten | backend/api/tests.py:212-259 | on the karma test's data, as written, user 1's karma is NULL and user 2's is 6 |
| Leaderboard.FixtureRanking | backend/api/tests.py:212-259 | on the karma test's data, as written, user 1 is not listed |
| Leaderboard.FixtureListsUser2 | backend/api/tests.py:212-259 | on the karma test's data, as written, user 2 is listed with karma 6 |
| Leaderboard.ListedAsWritten | backend/api/views.py:212-226 | with fewer than five users, as written, every user whose karma is non-NULL and positive is listed with it |
| Leaderboard.TopKeepsWhenFew | backend/api/views.py:226 | with fewer than five entries, every positive entry survives the cut |
| Leaderboard.WindowFixture | backend/api/tests.py:261-288 | on the window test's data only the in-window like counts, crediting 5 to the author of the liked post; the likes carry the timestamps the test means (one at `now`, one a second before the cutoff), whereas `auto_now_add` would stamp both at creation time |

## Findings

| source | as written | input that shows it | evidently intended | confidence | as-written member | corrected member |
|---|---|---|---|---|---|---|
| backend/api/views.py:222-225 | `F(x) if F(x) is not None else 0` tests an expression object, which is never `None`. So each summand is the raw subquery value, and a subquery with no matching row is SQL NULL, which makes the sum NULL. | The karma test's data (`backend/api/tests.py:212-259`): user 1 has one in-window post like and no comment likes, so the karma is NULL + 5 = NULL and `karma > 0` drops user 1. | A missing subtotal counts as 0 (`Coalesce`), so user 1 scores 5 as the test expects. | not executed | Leaderboard.AsWrittenOmitsSingleSource | Leaderboard.RankingSound |

`Leaderboard.KarmaAsWritten`, `Leaderboard.RankingAsWritten`,
`Leaderboard.ListedAsWritten`, `Leaderboard.FixtureAsWritten`,
`Leaderboard.FixtureRanking` and `Leaderboard.FixtureListsUser2` model the
code as written. `Leaderboard.KarmaOf`
and `Leaderboard.Ranking` are the corrected definitions, and they are what
the rest of the model calls the leaderboard.

## Left out

- HTTP and framework glue is left out:
  - routing, serializer selection and `Response` building;
  - the fallback that creates a demo user for anonymous callers;
  - the `last_updated` field of the leaderboard response.

  The calling user is a parameter.
- Database round trips are left out: `select_related`, `prefetch_related` and the query-count test. They are ORM behaviour, not values.
- Transactions and real concurrency are left out. The only race modelled is an identical row committed between the existence check and the insert, passed to `LikeToggle.Toggle` as `racer`.
- LikeToggle.Toggle: two racing unlikes are not modelled. The second would find and delete a row that is already gone.
- Time zones, `datetime` and `isoformat` are left out; timestamps are integer seconds.
- LikeToggle.LikeActionKeepsValid: requires the caller to be a stored user. The view guarantees this through the demo-user `get_or_create` fallback, which is not modelled.
- `updated_at` is left out. It is never read by the core.
- `auto_now_add` is left out. The like rows carry whatever timestamp the caller gives.
- The Django user model is left out, except for id and username.
- `CommentSerializer.get_replies` is left out. It is a per-level-query variant of the same tree.
- The `count()` fields of `PostSerializer` are left out.
- The serializers' `Meta` field lists are left out. They are declarative.
- The `__str__` of `Comment`, `PostLike` and `CommentLike` is left out. These are display strings outside the core; only `str(post)` is modelled.
- CommentTree.GetComments: requires `Fetched`, that is, distinct ids and every parent listed before its replies. The code's two passes would also link a reply fetched before its parent, for example when timestamps tie. The model does not cover that order. `Ordering.ThreadIsFetched` gives the precondition when replies are stamped strictly later.
- Ordering.ThreadIsFetched: assumes a reply's timestamp is strictly later than its parent's. With equal timestamps the database may return either order.
- Leaderboard.Top: ties in karma are ordered by an insertion sort that keeps the users' table order. The query leaves ties to the database, so no contract states a tie order.
- Leaderboard.PostAuthor: the join is modelled as the first post with the id. Primary keys make it the only one.
- Leaderboard.CommentAuthor: modelled the same way as the post join.
- CommentTree.HasLiked: follows the code's truthiness test, so a viewer whose id is 0 counts as anonymous.
