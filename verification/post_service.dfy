/**
 * The interaction engine: post creation, editing and deletion, likes and
 * comments. Each mutating operation is one atomic step from a store to a
 * (result, store) pair; when the result is an error or `false` the store is
 * the one the operation started from.
 */
module PostService {

  import opened Wrappers
  import opened Store
  import Ranking

  /** The value an operation returns together with the store after it commits. */
  datatype Transition<T> = Transition(result: T, after: Db)

  /** One page of the newest-first listing together with the number of stored posts. */
  datatype Listing = Listing(posts: seq<Post>, total: nat)

  /** Adds a post by `user`, stamped `now`, with no comments and no likes. */
  function CreatePost(db: Db, user: UserId, content: string, now: int): (t: Transition<Result<Post, PostError>>)
    ensures t.result.Failure? <==> |content| > MaxContentLength
    ensures t.result.Failure? ==> t.result.error == ContentTooLong && t.after == db
    ensures t.result.Success? ==>
      var p := t.result.value;
      && p.user == user && p.content == content && p.createdAt == now
      && p.comments == [] && p.likesCount == 0
      && t.after.posts == db.posts[p.id := p]
      && (WellKeyed(db) ==> p.id !in db.posts)
      && t.after.comments == db.comments && t.after.likes == db.likes && t.after.events == db.events
  {
    if |content| > MaxContentLength then Transition(Failure(ContentTooLong), db)
    else
      var id := db.nextId;
      var p := Post(id, user, content, [], 0, now);
      Transition(Success(p), db.(posts := db.posts[id := p], nextId := id + 1))
  }

  /** The author of the post `postId` is `user`; false when there is no such post. */
  predicate IsAuthor(db: Db, postId: Id, user: UserId)
  {
    postId in db.posts && db.posts[postId].user == user
  }

  /**
   * Replaces the content of `postId` when `requester` wrote it. A missing post
   * and a post by someone else both give `false`.
   */
  function UpdatePost(db: Db, postId: Id, requester: UserId, content: string): (t: Transition<Result<bool, PostError>>)
    ensures |content| > MaxContentLength ==> t.result == Failure(ContentTooLong)
    ensures |content| <= MaxContentLength ==> t.result == Success(IsAuthor(db, postId, requester))
    ensures t.result != Success(true) ==> t.after == db
    ensures t.result == Success(true) ==>
      && t.after.posts.Keys == db.posts.Keys
      && t.after.posts[postId].content == content
      && t.after.posts[postId] == db.posts[postId].(content := content)
      && (forall k :: k in db.posts && k != postId ==> t.after.posts[k] == db.posts[k])
      && t.after.(posts := db.posts) == db
  {
    if |content| > MaxContentLength then Transition(Failure(ContentTooLong), db)
    else if IsAuthor(db, postId, requester) then
      Transition(Success(true), db.(posts := db.posts[postId := db.posts[postId].(content := content)]))
    else Transition(Success(false), db)
  }

  /**
   * Removes the post `postId` when `requester` wrote it, together with its
   * comments, the likes on it and the like and comment notifications about it.
   * Likes on those comments and notifications of other kinds stay.
   */
  function DeletePost(db: Db, postId: Id, requester: UserId): (t: Transition<bool>)
    ensures t.result <==> IsAuthor(db, postId, requester)
    ensures !t.result ==> t.after == db
    ensures t.result ==>
      && t.after.nextId == db.nextId
      && (forall k :: k in t.after.posts <==> k in db.posts && k != postId)
      && (forall k :: k in t.after.comments <==> k in db.comments && db.comments[k].post != postId)
      && (forall k :: k in t.after.likes <==> k in db.likes && !IsPostLike(db.likes[k], db.likes[k].user, postId))
      && (forall k :: k in t.after.events <==> k in db.events && !RefersToPost(db.events[k].details, postId))
    ensures t.result ==>
      && (forall k :: k in t.after.posts ==> t.after.posts[k] == db.posts[k])
      && (forall k :: k in t.after.comments ==> t.after.comments[k] == db.comments[k])
      && (forall k :: k in t.after.likes ==> t.after.likes[k] == db.likes[k])
      && (forall k :: k in t.after.events ==> t.after.events[k] == db.events[k])
  {
    if IsAuthor(db, postId, requester) then
      Transition(true, db.(
        posts := map k | k in db.posts && k != postId :: db.posts[k],
        comments := map k | k in db.comments && db.comments[k].post != postId :: db.comments[k],
        likes := map k | k in db.likes && !(db.likes[k].target == postId && db.likes[k].targetModel == PostTarget) :: db.likes[k],
        events := map k | k in db.events && !RefersToPost(db.events[k].details, postId) :: db.events[k]))
    else Transition(false, db)
  }

  /**
   * Records `user`'s like of `postId`: a new Like, the post's counter up by
   * one and, unless `user` wrote the post, a like notification to its author.
   * A missing post or an existing like gives `false`.
   */
  function LikePost(db: Db, postId: Id, user: UserId): (t: Transition<bool>)
    ensures !t.result ==> t.after == db
    ensures WellKeyed(db) ==> (t.result <==> postId in db.posts && !HasLiked(db, user, postId))
    ensures t.result ==> postId in db.posts
    ensures t.result ==>
      var post := db.posts[postId];
      var likeId := db.nextId;
      && t.after.posts == db.posts[postId := post.(likesCount := post.likesCount + 1)]
      && t.after.likes == db.likes[likeId := Like(likeId, user, postId, PostTarget)]
      && t.after.comments == db.comments
      && (post.user != user ==> t.after.events == db.events[likeId + 1 := Event(likeId + 1, user, post.user, LikeDetails(postId))])
      && (post.user == user ==> t.after.events == db.events)
      && (WellKeyed(db) ==> likeId !in db.likes && likeId + 1 !in db.events)
  {
    if postId !in db.posts || FindLike(db.likes, user, postId, 0, db.nextId).Some? then Transition(false, db)
    else Transition(true, Liked(db, postId, user))
  }

  /** The store after `user`'s like of `postId` is recorded, with its notification unless `user` wrote the post. */
  function Liked(db: Db, postId: Id, user: UserId): Db
    requires postId in db.posts
  {
    var post := db.posts[postId];
    var likeId := db.nextId;
    var liked := db.(
      posts := db.posts[postId := post.(likesCount := post.likesCount + 1)],
      likes := db.likes[likeId := Like(likeId, user, postId, PostTarget)],
      nextId := likeId + 1);
    if post.user != user then
      var eventId := liked.nextId;
      liked.(
        events := db.events[eventId := Event(eventId, user, post.user, LikeDetails(postId))],
        nextId := eventId + 1)
    else liked
  }

  /**
   * `after` is `db` with one of `user`'s likes of `postId` removed, the post's
   * counter one lower and at most one like notification from `user` to the
   * author about the post removed; nothing else differs.
   */
  ghost predicate WithdrawsLike(db: Db, after: Db, postId: Id, user: UserId)
    requires postId in db.posts
  {
    var post := db.posts[postId];
    && after.posts == db.posts[postId := post.(likesCount := post.likesCount - 1)]
    && after.comments == db.comments
    && after.nextId == db.nextId
    && (exists k :: k in db.likes && IsPostLike(db.likes[k], user, postId) && after.likes == db.likes - {k})
    && (|| after.events == db.events
        || exists e :: e in db.events && IsLikeEvent(db.events[e], user, post.user, postId) && after.events == db.events - {e})
  }

  /**
   * Withdraws `user`'s like of `postId`: the Like goes, the counter drops by
   * one, and the first like notification from `user` to the author about the
   * post, if any, goes too. A missing post or a missing like gives `false`.
   */
  function UnlikePost(db: Db, postId: Id, user: UserId): (t: Transition<bool>)
    ensures !t.result ==> t.after == db
    ensures WellKeyed(db) ==> (t.result <==> postId in db.posts && HasLiked(db, user, postId))
    ensures t.result ==> postId in db.posts
    ensures t.result ==> WithdrawsLike(db, t.after, postId, user)
  {
    if postId !in db.posts then Transition(false, db)
    else match FindLike(db.likes, user, postId, 0, db.nextId)
      case None => Transition(false, db)
      case Some(likeId) =>
        UnlikedWithdraws(db, postId, user, likeId);
        Transition(true, Unliked(db, postId, user, likeId))
  }

  /** The store after `user`'s like `likeId` of `postId` is withdrawn. */
  function Unliked(db: Db, postId: Id, user: UserId, likeId: Id): Db
    requires postId in db.posts && likeId in db.likes
  {
    var post := db.posts[postId];
    var events := match FindLikeEvent(db.events, user, post.user, postId, 0, db.nextId)
      case None => db.events
      case Some(eventId) => db.events - {eventId};
    db.(
      posts := db.posts[postId := post.(likesCount := post.likesCount - 1)],
      likes := db.likes - {likeId},
      events := events)
  }

  /** Deleting one of `user`'s likes of `postId` withdraws that like, and only that one. */
  lemma UnlikedWithdraws(db: Db, postId: Id, user: UserId, likeId: Id)
    requires postId in db.posts && likeId in db.likes && IsPostLike(db.likes[likeId], user, postId)
    ensures WithdrawsLike(db, Unliked(db, postId, user, likeId), postId, user)
    ensures Unliked(db, postId, user, likeId).likes == db.likes - {likeId}
  {
    match FindLikeEvent(db.events, user, db.posts[postId].user, postId, 0, db.nextId)
    case None =>
    case Some(eventId) =>
      assert Unliked(db, postId, user, likeId).events == db.events - {eventId};
  }

  /**
   * Adds `user`'s comment to `postId`: a new Comment with no replies and no
   * likes, its id appended to the post's comment list and, unless `user` wrote
   * the post, a comment notification to the author carrying both ids. Content
   * over the bound is refused before the post is looked up.
   */
  function AddComment(db: Db, postId: Id, user: UserId, content: string): (t: Transition<Result<bool, PostError>>)
    ensures |content| > MaxContentLength ==> t.result == Failure(ContentTooLong)
    ensures |content| <= MaxContentLength ==> t.result == Success(postId in db.posts)
    ensures t.result != Success(true) ==> t.after == db
    ensures t.result == Success(true) ==> postId in db.posts
    ensures t.result == Success(true) ==>
      var post := db.posts[postId];
      var commentId := db.nextId;
      && t.after.comments == db.comments[commentId := Comment(commentId, user, content, postId, [], 0)]
      && t.after.posts == db.posts[postId := post.(comments := post.comments + [commentId])]
      && t.after.likes == db.likes
      && (post.user != user ==>
            t.after.events == db.events[commentId + 1 := Event(commentId + 1, user, post.user, CommentDetails(postId, commentId))])
      && (post.user == user ==> t.after.events == db.events)
      && (WellKeyed(db) ==> commentId !in db.comments && commentId + 1 !in db.events)
  {
    if |content| > MaxContentLength then Transition(Failure(ContentTooLong), db)
    else if postId !in db.posts then Transition(Success(false), db)
    else
      var post := db.posts[postId];
      var commentId := db.nextId;
      var commented := db.(
        comments := db.comments[commentId := Comment(commentId, user, content, postId, [], 0)],
        posts := db.posts[postId := post.(comments := post.comments + [commentId])],
        nextId := commentId + 1);
      if post.user != user then
        var eventId := commented.nextId;
        Transition(Success(true), commented.(
          events := db.events[eventId := Event(eventId, user, post.user, CommentDetails(postId, commentId))],
          nextId := eventId + 1))
      else Transition(Success(true), commented)
  }

  /** The listing order: newest first. */
  function ByCreatedAt(p: Post): Ranking.Rank
  {
    Ranking.Rank(p.createdAt, 0, 0)
  }

  /** Every stored post, newest first. */
  function NewestFirst(db: Db): (r: seq<Post>)
    ensures Ranking.SortedDesc(r, ByCreatedAt)
    ensures multiset(r) == multiset(AllPosts(db))
  {
    Ranking.SortDesc(AllPosts(db), ByCreatedAt)
  }

  /** The number of posts the cursor for page `page` of `limit` posts skips. */
  function PageSkip(page: int, limit: int): (skip: int)
    ensures page >= 1 && limit >= 0 ==> skip >= 0
  {
    (page - 1) * limit
  }

  /**
   * Page `page` of `limit` posts of the newest-first listing, and the number of
   * stored posts. The cursor skips `(page - 1) * limit` posts; a negative skip
   * is refused by the store, a limit of 0 means no limit and a negative limit
   * keeps its absolute value. A call that leaves them out asks for page 1 of
   * 10 posts.
   */
  function GetAllPosts(db: Db, page: int := 1, limit: int := 10): (r: Result<Listing, PostError>)
    ensures r.Failure? <==> PageSkip(page, limit) < 0
    ensures r.Failure? ==> r.error == NegativeSkip
    ensures r.Success? ==> r.value.total == |db.posts|
    ensures r.Success? && limit != 0 ==> |r.value.posts| <= if limit < 0 then -limit else limit
    ensures r.Success? ==> Ranking.SortedDesc(r.value.posts, ByCreatedAt)
    ensures r.Success? ==> forall i :: 0 <= i < |r.value.posts| ==> r.value.posts[i] in db.posts.Values
    ensures r.Success? ==>
      var skip := PageSkip(page, limit);
      var order := NewestFirst(db);
      var cap := if limit < 0 then -limit else limit;
      && |r.value.posts| == (if skip >= |order| then 0 else if limit == 0 || |order| - skip <= cap then |order| - skip else cap)
      && forall i :: 0 <= i < |r.value.posts| ==> r.value.posts[i] == order[skip + i]
  {
    var skip := PageSkip(page, limit);
    if skip < 0 then Failure(NegativeSkip)
    else
      var count := if limit == 0 then None else if limit < 0 then Some(-limit) else Some(limit);
      var order := NewestFirst(db);
      var posts := Ranking.Window(order, skip, count);
      Ranking.WindowOfPermutation(AllPosts(db), order, skip, count);
      Ranking.WindowOfSorted(order, skip, count, ByCreatedAt);
      Success(Listing(posts, |db.posts|))
  }
}
