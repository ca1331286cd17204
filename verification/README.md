# Social feed interaction core, modelled in Dafny

This project models the three stateful pieces of the feed backend and proves properties of them.

- **Interaction engine** (`PostService`). Post creation, editing and deletion, likes, unlikes and comments. Each operation is one atomic transaction over a store of Post, Comment, Like and Event records. The newest-first paged listing of posts is modelled too.
- **Hot-post cache** (`HotPostService`). A top-100 ranking of the posts. It is written as one snapshot under the cache key `hot:posts` with a 600-second time to live, and read through a hit/miss path.
- **Search-index bootstrap** (`setupElasticsearch`). A retry loop of at most three attempts. Each attempt pings the index store, creates the `posts` and `users` indexes when they are missing, and bulk-loads every post and user as action/document pairs.

Every transaction is a pure function from a store to a `Transition(result, after)`. When the result is an error or `false`, `after` is the store the operation started from. The store is a set of maps keyed by record id, plus a counter that hands out fresh ids in place of the document store's ObjectId allocation. The clock, the cache and the behaviour of the index store are parameters.

Modules, one per file:

| file | module | contents |
|---|---|---|
| wrappers.dfy | `Wrappers` | `Option`, `Result` |
| ranking.dfy | `Ranking` | descending multi-key order, insertion sort, skip/limit window, permutation facts |
| store.dfy | `Store` | records, the store, its consistency invariant `Valid`, lookups and the collection scan |
| post_service.dfy | `PostService` | the six transactions and the paged listing |
| post_invariants.dfy | `PostInvariants` | `Valid` is preserved by every transaction; like/unlike scenarios; paging |
| hot_posts.dfy | `HotPosts` | top-100 ranking, snapshot write with TTL, hit/miss read |
| search_setup.dfy | `SearchSetup` | bulk projection, one attempt, the retry loop and its waits |

`Store.Valid` is the invariant every transaction keeps. It has six parts:

- every record sits under its own id, and that id lies below the id counter;
- every post like targets a stored post;
- there is at most one like per (user, post) pair;
- each post's `likesCount` equals the number of likes on it;
- every like notification is addressed to the post's author, about a stored post, from a user who still likes it;
- there is at most one like notification per (sender, post) pair.

## Model

| member | source | states |
|---|---|---|
| PostService.CreatePost | backend/src/services/postService.ts:57-70 | Content longer than 280 fails with `ContentTooLong` and creates nothing. Otherwise exactly one new post appears: it has a fresh id, is by the caller, has no comments and no likes, and no other collection changes. |
| PostService.UpdatePost | backend/src/services/postService.ts:85-102 | Content longer than 280 is refused. Otherwise the result is true exactly when the post exists and the requester wrote it, so a missing post and someone else's post both give false. On true only that post's content changes; on false nothing changes. |
| PostService.DeletePost | backend/src/services/postService.ts:117-148 | Succeeds exactly when the requester wrote the post; otherwise nothing changes. On success it removes the post, exactly the comments on it, exactly the likes that target it as a post and exactly the like/comment notifications about it. Likes on comments, other notifications and every surviving record stay unchanged. |
| PostService.LikePost | backend/src/services/postService.ts:170-213 | In a well-keyed store, succeeds exactly when the post exists and the user has not liked it; a refusal changes nothing. A success adds one like, raises the counter by one and adds a like notification to the author exactly when the liker is not the author. |
| PostService.UnlikePost | backend/src/services/postService.ts:232-270 | In a well-keyed store, succeeds exactly when the post exists and the user has liked it; a refusal changes nothing. A success removes one of that user's likes on the post, lowers the counter by one and removes at most one like notification from the user to the author about the post. Nothing else differs. |
| PostService.AddComment | backend/src/services/postService.ts:290-338 | Content longer than 280 is refused before the post lookup. Otherwise the result is true exactly when the post exists. On true there is one new comment with no replies and no likes, its id is appended to the end of the post's comment list, and a comment notification carrying both ids goes to the author exactly when the commenter is not the author. |
| PostService.NewestFirst | backend/src/services/postService.ts:25-26 | The listing order is a permutation of the stored posts, sorted by creation time descending. |
| PostService.GetAllPosts | backend/src/services/postService.ts:18-43 | Fails exactly when the skip `(page-1)*limit` is negative. Otherwise the total is the number of stored posts, and the page is the slice of the newest-first listing that starts at the skip. Its length is the posts left after the skip, capped at `abs(limit)` unless the limit is 0. The page is sorted newest first and holds only stored posts. Left out, the arguments default to page 1 and limit 10. |
| PostInvariants.CreatePostPreservesValid | backend/src/services/postService.ts:57-70 | Creating a post keeps the store invariant `Valid`. |
| PostInvariants.UpdatePostPreservesValid | backend/src/services/postService.ts:96-100 | Editing a post keeps `Valid`. |
| PostInvariants.DeletePostPreservesValid | backend/src/services/postService.ts:121-148 | The cascading delete keeps `Valid`: no like, counter or like notification is left dangling. |
| PostInvariants.LikePostPreservesValid | backend/src/services/postService.ts:184-210 | A like keeps `Valid`: counters still equal the like records, and likes and like notifications stay unique per (user, post). |
| PostInvariants.UnlikePostPreservesValid | backend/src/services/postService.ts:246-267 | An unlike keeps `Valid`. The notification it removes is the one announcing the withdrawn like. |
| PostInvariants.AddCommentPreservesValid | backend/src/services/postService.ts:298-335 | Adding a comment keeps `Valid`. |
| PostService.UnlikedWithdraws | backend/src/services/postService.ts:246-267 | Deleting the like `likeId` of the user on a post, with the first matching notification, removes exactly that like and no other. It lowers the counter by one and removes at most one like notification from the user to the author. Nothing else differs. |
| PostInvariants.LikedThenUnliked | backend/src/services/postService.ts:184-267 | Withdrawing the like just recorded gives back the store it was recorded in, up to the id counter. This includes the notification the like created, if any. |
| PostInvariants.UnlikeClearsLike | backend/src/services/postService.ts:246-267 | After a successful unlike in a consistent store, the user no longer likes the post. |
| PostInvariants.LikeTwiceCountsOnce | backend/src/services/postService.ts:175-200 | Liking twice: the second call returns false and changes nothing, so overall the post gains exactly one like and its counter rises by exactly one. |
| PostInvariants.LikeUnlikeRoundTrip | backend/src/services/postService.ts:232-270 | A successful like followed by an unlike by the same user succeeds and restores posts, comments, likes and notifications. Only the id counter has moved on. |
| PostInvariants.UnlikeLikeUnlikeCounter | backend/src/services/postService.ts:255-259 | Unlike, like, unlike leaves the counter at the value the first unlike left. That is the original count when the user had not liked the post, and one less when they had. |
| PostInvariants.TwoLikersCountTwice | backend/src/services/postService.ts:189-200 | Two different users who have not liked a post both like it: both calls succeed, the counter rises by two and both hold a like. |
| PostInvariants.NewestFirstListsEachPostOnce | backend/src/services/postService.ts:24-26 | In a well-keyed store, the listing order holds every stored post exactly once. |
| PostInvariants.UnlimitedFirstPageListsAll | backend/src/services/postService.ts:18-28 | Page 1 with limit 0 lists every stored post exactly once, and its length equals the total. |
| PostInvariants.PagesDoNotOverlap | backend/src/services/postService.ts:20-28 | Within the model's single listing order, two different pages of the same positive size never show the same post. |
| PostInvariants.DefaultListingIsNewestTen | backend/src/services/postService.ts:18-28 | A call without paging arguments succeeds and lists the 10 newest posts, or all of them when fewer are stored. |
| PostInvariants.NewestFirstIsUnique | backend/src/services/postService.ts:24-26 | When no two stored posts share a creation time, every arrangement of the stored posts sorted newest first is exactly the model's listing. |
| PostInvariants.SeparateQueryPagesDoNotOverlap | backend/src/services/postService.ts:20-28 | Two different pages of the same positive size, each cut from its own newest-first query, never show the same post, provided no two posts share a creation time. |
| Ranking.SortedPermutationUnique | backend/src/services/postService.ts:24-26 | Two descending arrangements of the same elements are equal when no two different elements rank alike. |
| Ranking.SortDesc | backend/src/services/hotPostService.ts:46 | The sort result is descending in the multi-key order and is a permutation of its input. |
| Ranking.Window | backend/src/services/postService.ts:27-28 | The skip/limit window holds the elements from position `skip` on, at most `limit` of them or all the rest when there is no limit, in order. |
| Store.FindLike | backend/src/services/postService.ts:177-181 | The lookup finds a like by the user on the post when one exists in the scanned id range, and it is the lowest such id. `None` means there is none. |
| Store.FindLikeEvent | backend/src/services/postService.ts:261-266 | The lookup finds the lowest-id like notification from the sender to the receiver about the post, or `None` when there is none. |
| Store.AllPostsFromStore | backend/src/services/postService.ts:24-25 | In a well-keyed store, scanning the posts collection yields as many posts as are stored. Each is the post stored under its own id, and none appears twice. |
| Store.AllPostsCovers | backend/src/services/postService.ts:24-25 | In a well-keyed store, the scan misses no stored post. |
| Store.KeysBetweenLists | backend/src/services/postService.ts:24-25 | The id-order enumeration behind the scan lists exactly the keys in its range, in strictly increasing order. |
| HotPosts.ArrayDescKey | backend/src/services/hotPostService.ts:46 | A descending sort on an array field keys each document by the array's largest element; an empty array sorts after every non-empty one. |
| HotPosts.RankHotPosts | backend/src/services/hotPostService.ts:45-47 | The snapshot holds at most 100 stored posts, sorted by likes, then the comment key, then creation time, all descending. |
| HotPosts.RankHotPostsFromStore | backend/src/services/hotPostService.ts:45-47 | In a well-keyed store the snapshot holds min(100, number of posts) posts. Each is the post stored under its own id, and none appears twice. |
| HotPosts.RankHotPostsKeepsAll | backend/src/services/hotPostService.ts:45-47 | With at most 100 posts stored, the snapshot holds every one of them. |
| HotPosts.RankHotPostsIsTopN | backend/src/services/hotPostService.ts:45-47 | The snapshot is a top-N prefix: no stored post left out of it ranks above its last entry. |
| Ranking.Top | backend/src/services/hotPostService.ts:46-47 | A sorted query with a limit returns min(limit, input size) elements of its input, in descending order. |
| Ranking.TopIsTop | backend/src/services/hotPostService.ts:46-47 | An element left out by the limit ranks no higher than the last element kept. |
| HotPosts.StrictlyHigherComesFirst | backend/src/services/hotPostService.ts:46 | In a snapshot, a post that strictly outranks another comes before it. |
| HotPosts.UpdateHotPosts | backend/src/services/hotPostService.ts:41-60 | A recomputation that goes through replaces the cache wholesale with the fresh snapshot, expiring 600 s later. A failed query or key deletion leaves the cache as it was, a failed write after the deletion leaves it empty, and no error reaches the caller. |
| HotPosts.GetHotPosts | backend/src/services/hotPostService.ts:24-38 | A hit returns the cached list unchanged. A miss returns `[]` and requests a recomputation. A failing cache read returns `[]`. |
| HotPosts.ReadAfterUpdate | backend/src/services/hotPostService.ts:52-54 | After a successful recomputation, whatever the cache held before, reads return the new snapshot for the next 600 s and miss from then on. |
| HotPosts.ArrayKeyMisranks | backend/src/services/hotPostService.ts:44-46 | Counterexample: at equal likes and creation time, a post with two comments ranks below a post with one newer comment. |
| HotPosts.CommentCountRanksBusierFirst | backend/src/services/hotPostService.ts:44-46 | With the comment count as the middle key, at equal likes the post with more comments comes first in the snapshot. |
| SearchSetup.UserDoc | backend/src/utils/elasticSearchSetup.ts:263-272 | A user document copies the user name, account name, creation time, visibility flag, avatar URL and both follow counts. A missing bio becomes the empty string. |
| SearchSetup.PostOpsShape | backend/src/utils/elasticSearchSetup.ts:236-244 | For n posts the bulk body has length 2n, in input order. Element 2i is the index action carrying post i's id and element 2i+1 its document. Building it fails exactly when some post has lost its author. |
| SearchSetup.UserOpsShape | backend/src/utils/elasticSearchSetup.ts:261-273 | For n users the bulk body has length 2n, in input order. Element 2i is the index action carrying user i's id and element 2i+1 its document. |
| SearchSetup.SyncPosts | backend/src/utils/elasticSearchSetup.ts:233-255 | A bulk request is sent exactly when there are posts and each has a found author. Then there is one request: to the posts index, carrying the operations `PostOps` builds for all the posts (twice as many entries as posts), and its answer is recorded rather than raised. Otherwise nothing is sent. |
| SearchSetup.SyncUsers | backend/src/utils/elasticSearchSetup.ts:258-284 | There is a bulk request exactly when there are users, and it carries every user. A rejected request is recorded, not raised. |
| SearchSetup.EnsureIndexes | backend/src/utils/elasticSearchSetup.ts:16-225 | A failed ping, or failed existence checks, leave the index state untouched. The step gets through exactly when the ping and the existence checks succeed and each missing index is created. Then both indexes exist. An index already there is kept and not created again. A missing index whose creation is refused stays absent, and a refused `posts` creation ends the step before `users` is touched. Once the checks succeed and `posts` exists or is created, it stays even if the `users` creation then fails. A missing index is created once if it exists afterwards, and not at all otherwise. |
| SearchSetup.RunAttempt | backend/src/utils/elasticSearchSetup.ts:12-287 | A failed ping ends the attempt before any index or sync work. The attempt's index work is exactly the index step, so indexes it created stay even when the reads then fail. The attempt gets through exactly when the ping, the existence checks, the creation of each missing index and the reads all succeed. Bulk requests are made only by an attempt that gets through: the post sync, then the user sync. |
| SearchSetup.Retry | backend/src/utils/elasticSearchSetup.ts:8-303 | At most 3 attempts, with one wait between consecutive attempts. An attempt that gets through ends the loop at once: the run is ready, that attempt is the last one, and no further wait follows it. A ready run's last attempt passed the ping, the existence checks and the reads. A run that is not ready made all 3 attempts and no bulk request. When every remaining attempt fails at the reads, the run is not ready and loads nothing. |
| SearchSetup.RetryKeepsIndexes | backend/src/utils/elasticSearchSetup.ts:24-34 | An index that exists at the start of a run is never dropped and never created again. |
| SearchSetup.RetryCreatesMissingPosts | backend/src/utils/elasticSearchSetup.ts:33-117 | A missing `posts` index is created exactly once over the run if it exists at the end, and not at all otherwise, whatever the retries. |
| SearchSetup.RetryCreatesMissingUsers | backend/src/utils/elasticSearchSetup.ts:119-225 | A missing `users` index is created exactly once over the run if it exists at the end, and not at all otherwise. |
| SearchSetup.RetryReadyHasBoth | backend/src/utils/elasticSearchSetup.ts:24-225 | A run that gets through leaves both indexes in place. |
| SearchSetup.RetryBulks | backend/src/utils/elasticSearchSetup.ts:227-287 | The bulk requests of a run that gets through are those of its last attempt. Failed attempts leave none. |
| SearchSetup.SetupSearch | backend/src/utils/elasticSearchSetup.ts:7-305 | Always returns, after 1 to 3 attempts. A first attempt that gets through ends the loop with no wait. A ready run's last attempt passed the ping, the existence checks and the reads. A run that gives up made 3 attempts and loaded nothing, and a run whose three attempts all fail at the reads gives up. |
| SearchSetup.ReadyRunSyncsLastAttempt | backend/src/utils/elasticSearchSetup.ts:233-287 | A ready run loads the records once, with its last attempt's bulk answers. When there are users, its last bulk request is the user sync carrying every user, whatever became of the post sync. |
| SearchSetup.WaitsAreOneThenTwoSeconds | backend/src/utils/elasticSearchSetup.ts:290-302 | The recorded waits are exactly 1000 ms and then 2000 ms, cut to one fewer than the attempts made. Nothing follows the last attempt. |
| SearchSetup.CreatesOnlyMissingIndexes | backend/src/utils/elasticSearchSetup.ts:24-225 | Only missing indexes are created, each at most once: exactly those missing at the start and present at the end. No index is dropped. A ready run leaves both present. Re-running where both exist creates nothing. |
| SearchSetup.PingDownGivesUp | backend/src/utils/elasticSearchSetup.ts:16-22 | When every ping fails, the run makes 3 attempts and waits 1000 ms and then 2000 ms. It creates and loads nothing, and returns not ready without throwing. |
| SearchSetup.AttemptIgnoresBulkAnswers | backend/src/utils/elasticSearchSetup.ts:251-254 | Within one attempt, the answers to the bulk requests change neither whether the attempt gets through nor its index work. |
| SearchSetup.RetryIgnoresBulkAnswers | backend/src/utils/elasticSearchSetup.ts:251-254 | Over the retry loop, the bulk answers change neither the attempts, the waits, readiness nor the final indexes. |
| SearchSetup.BulkAnswersDoNotSteer | backend/src/utils/elasticSearchSetup.ts:251-254 | How the index store answers the bulk requests changes neither the attempts, the waits, the indexes created nor readiness: a bulk failure never costs a retry. |

## Left out

- Transport and I/O are not modelled: database sessions, the Redis and Elasticsearch clients, logging, real timers (a wait is recorded as a number), `populate` and `lean` projections, and JSON serialisation of the cache value. A cached value that fails to parse is covered by the read-failure flag of `GetHotPosts`.
- Concurrency is not modelled: `Promise.all` inside a transaction, the store's own transaction retry, interleaved likes, the daily cron schedule and the fire-and-forget recomputation. Each transaction is one atomic step, and a recomputation request is the `recompute` flag.
- The analyzer and mapping settings of the two indexes are relevance configuration for the index store. The model keeps only "exists or created".
- Failures of the primary store inside a transaction are not modelled. Such a transaction aborts with nothing committed and the error reaches the caller. The only error results are the content-length refusal and the negative skip.
- Content length is counted in characters of `seq<char>`, not in the UTF-16 code units JavaScript counts.
- Timestamps of comments, likes and notifications, and the payloads of follow and friend-request notifications, are left out. Nothing in these operations reads them.
- The React pages, the search route, the mock-data generator, the follow schema and the client configuration are not part of this model.
- Store.FindLike: when several records match, the store may pick any of them. The model picks the one with the lowest id. Under `Valid` at most one like and at most one like notification match, so the choice makes no difference there.
- PostService.GetAllPosts: the model follows the document store's cursor rules. A negative skip is refused, a limit of 0 means no limit and a negative limit means its absolute value. Posts with equal creation times come out in the one order the model's sort produces, where the store leaves their order open.
- PostInvariants.PagesDoNotOverlap: holds for pages cut from the model's one listing order. Pages from two separate store queries are covered by `SeparateQueryPagesDoNotOverlap` only when no two posts share a creation time. With ties, the store may order tied posts differently in each query, and the model promises nothing about overlap then.
- PostService.GetAllPosts: comments and authors are not populated into the listed posts.
- PostService.GetAllPosts: `page` and `limit` are JavaScript numbers, but the model takes mathematical integers. Fractional, NaN or infinite arguments, and skips beyond 2^53 where the number loses precision, are not modelled.
- HotPosts.RankHotPosts: posts tied on likes, the comment key and creation time may come out in any order, and the store may pick any of them for the last places up to 100. The model fixes one choice: its sort over id order. `RankHotPostsIsTopN` does not depend on that choice, since it says only that no left-out post outranks the last one kept.
- PostInvariants.UnlikeLikeUnlikeCounter: unlike, like, unlike does not in general restore the original counter. It does only when the user had not liked the post beforehand: if they had, the first unlike already lowers the counter. The lemma states what the code does.
- SearchSetup.WaitsAreOneThenTwoSeconds: a comment in the code (elasticSearchSetup.ts:299) mentions a third wait of 4 s. The code returns right after the third failure, so the waits are only 1 s and 2 s, as modelled.
- SearchSetup.Retry: the trace counts how many times each index was created, not the order of the creation calls, and records no log messages.
- SearchSetup.RunAttempt: the two existence checks are one outcome flag, since either failing aborts the attempt before any index is created. The two record reads are likewise one flag.
- HotPosts.UpdateHotPosts: the ranking takes the middle sort key as a parameter. All its lemmas hold for every key, so they cover both the behaviour as written (`ArrayDescKey`) and the intended one (`CommentCount`).

## Findings

| source | as written | input that shows it | evidently intended | confidence | as-written member | corrected member |
|---|---|---|---|---|---|---|
| backend/src/services/hotPostService.ts:46 | The sort key `comments: -1` orders by the comment-id array. A descending sort on an array uses its largest element, which is the newest comment id. | Two posts with 5 likes and equal creation time: A has comment ids [3, 4] and B has [9]. B ranks above A although A has more comments. | Rank by the number of comments, as the comment on line 44 says. | medium, not executed | HotPosts.ArrayKeyMisranks | HotPosts.CommentCountRanksBusierFirst |
