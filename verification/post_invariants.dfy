/**
 * The store consistency `Valid` is kept by every transaction of the
 * interaction engine, and the like/unlike and comment scenarios it makes
 * predictable.
 */
module PostInvariants {

  import opened Wrappers
  import opened Store
  import opened PostService

  /** A like recorded before a step that kept it is still recorded after it. */
  lemma LikeSurvives(db: Db, db': Db, user: UserId, postId: Id, k: Id)
    requires k in db.likes && IsPostLike(db.likes[k], user, postId)
    requires k in db'.likes && db'.likes[k] == db.likes[k]
    ensures HasLiked(db', user, postId)
  {
  }

  lemma CreatePostPreservesValid(db: Db, user: UserId, content: string, now: int)
    requires Valid(db)
    ensures Valid(CreatePost(db, user, content, now).after)
  {
    var t := CreatePost(db, user, content, now);
    if t.result.Success? {
      var a := t.after;
      var id := db.nextId;
      assert forall k :: k in a.likes && a.likes[k].targetModel == PostTarget ==> a.likes[k].target != id;
      assert LikesOn(a.likes, id) == {};
      forall q | q in a.posts ensures a.posts[q].likesCount == |LikesOn(a.likes, q)| {
        if q != id {
          assert a.posts[q] == db.posts[q];
        }
      }
      forall e | e in a.events && a.events[e].details.LikeDetails?
        ensures HasLiked(a, a.events[e].sender, a.events[e].details.postId)
      {
        assert HasLiked(db, db.events[e].sender, db.events[e].details.postId);
      }
    }
  }

  lemma UpdatePostPreservesValid(db: Db, postId: Id, requester: UserId, content: string)
    requires Valid(db)
    ensures Valid(UpdatePost(db, postId, requester, content).after)
  {
    var t := UpdatePost(db, postId, requester, content);
    if t.result == Success(true) {
      var a := t.after;
      forall e | e in a.events && a.events[e].details.LikeDetails?
        ensures HasLiked(a, a.events[e].sender, a.events[e].details.postId)
      {
        assert HasLiked(db, db.events[e].sender, db.events[e].details.postId);
      }
    }
  }

  lemma DeletePostPreservesValid(db: Db, postId: Id, requester: UserId)
    requires Valid(db)
    ensures Valid(DeletePost(db, postId, requester).after)
  {
    var t := DeletePost(db, postId, requester);
    if t.result {
      var a := t.after;
      forall q | q in a.posts ensures a.posts[q].likesCount == |LikesOn(a.likes, q)| {
        assert LikesOn(a.likes, q) == LikesOn(db.likes, q);
      }
      forall e | e in a.events && a.events[e].details.LikeDetails?
        ensures && a.events[e].details.postId in a.posts
                && a.events[e].receiver == a.posts[a.events[e].details.postId].user
                && HasLiked(a, a.events[e].sender, a.events[e].details.postId)
      {
        var ev := db.events[e];
        var q := ev.details.postId;
        assert q != postId;
        assert HasLiked(db, ev.sender, q);
        var k :| k in db.likes && IsPostLike(db.likes[k], ev.sender, q);
        LikeSurvives(db, a, ev.sender, q, k);
      }
    }
  }

  /** The counters after a like that adds `likeId` to `postId`. */
  lemma LikeKeepsCounters(db: Db, a: Db, postId: Id, user: UserId, likeId: Id)
    requires CountersTrackLikes(db) && postId in db.posts && likeId !in db.likes
    requires a.posts == db.posts[postId := db.posts[postId].(likesCount := db.posts[postId].likesCount + 1)]
    requires a.likes == db.likes[likeId := Like(likeId, user, postId, PostTarget)]
    ensures CountersTrackLikes(a)
  {
    assert LikesOn(a.likes, postId) == LikesOn(db.likes, postId) + {likeId};
    forall q | q in a.posts ensures a.posts[q].likesCount == |LikesOn(a.likes, q)| {
      if q != postId {
        assert LikesOn(a.likes, q) == LikesOn(db.likes, q);
      }
    }
  }

  /** Like notifications after a like that adds `likeId` and possibly the notification of it. */
  lemma LikeKeepsLikeEvents(db: Db, a: Db, postId: Id, user: UserId, likeId: Id, eventId: Id)
    requires LikeEventsTrackLikes(db) && UniqueLikeEvents(db)
    requires postId in db.posts && likeId !in db.likes && !HasLiked(db, user, postId)
    requires a.posts.Keys == db.posts.Keys && forall q :: q in a.posts ==> a.posts[q].user == db.posts[q].user
    requires a.likes == db.likes[likeId := Like(likeId, user, postId, PostTarget)]
    requires || a.events == db.events
             || (eventId !in db.events && a.events == db.events[eventId := Event(eventId, user, db.posts[postId].user, LikeDetails(postId))])
    ensures LikeEventsTrackLikes(a) && UniqueLikeEvents(a)
  {
    forall e | e in a.events && a.events[e].details.LikeDetails?
      ensures HasLiked(a, a.events[e].sender, a.events[e].details.postId)
    {
      if e in db.events {
        var ev := db.events[e];
        assert HasLiked(db, ev.sender, ev.details.postId);
        var k :| k in db.likes && IsPostLike(db.likes[k], ev.sender, ev.details.postId);
        LikeSurvives(db, a, ev.sender, ev.details.postId, k);
      } else {
        LikeSurvives(a, a, user, postId, likeId);
      }
    }
    forall e1, e2 | e1 in a.events && e2 in a.events && a.events[e1].details.LikeDetails?
      && a.events[e2].details == a.events[e1].details && a.events[e2].sender == a.events[e1].sender
      ensures e1 == e2
    {
    }
  }

  /** Keys, like targets and like uniqueness after a like that adds `likeId` to `postId`. */
  lemma LikeKeepsKeys(db: Db, a: Db, postId: Id, user: UserId, likeId: Id)
    requires WellKeyed(db) && LikesTargetPosts(db) && UniquePostLikes(db)
    requires postId in db.posts && likeId == db.nextId && !HasLiked(db, user, postId)
    requires a.nextId > likeId + 1 || (a.nextId == likeId + 1 && a.events == db.events)
    requires a.posts.Keys == db.posts.Keys && forall q :: q in a.posts ==> a.posts[q].id == db.posts[q].id
    requires a.comments == db.comments
    requires a.likes == db.likes[likeId := Like(likeId, user, postId, PostTarget)]
    requires a.events == db.events || a.events == db.events[likeId + 1 := Event(likeId + 1, user, db.posts[postId].user, LikeDetails(postId))]
    ensures WellKeyed(a) && LikesTargetPosts(a) && UniquePostLikes(a)
  {
  }

  lemma LikePostPreservesValid(db: Db, postId: Id, user: UserId)
    requires Valid(db)
    ensures Valid(LikePost(db, postId, user).after)
  {
    var t := LikePost(db, postId, user);
    if t.result {
      var a := t.after;
      var likeId := db.nextId;
      assert postId in db.posts && !HasLiked(db, user, postId);
      LikeKeepsKeys(db, a, postId, user, likeId);
      LikeKeepsCounters(db, a, postId, user, likeId);
      LikeKeepsLikeEvents(db, a, postId, user, likeId, likeId + 1);
    }
  }

  /** The counters after an unlike that removes `likeId` from `postId`. */
  lemma UnlikeKeepsCounters(db: Db, a: Db, postId: Id, user: UserId, likeId: Id)
    requires CountersTrackLikes(db) && postId in db.posts
    requires likeId in db.likes && IsPostLike(db.likes[likeId], user, postId)
    requires a.posts == db.posts[postId := db.posts[postId].(likesCount := db.posts[postId].likesCount - 1)]
    requires a.likes == db.likes - {likeId}
    ensures CountersTrackLikes(a)
  {
    assert LikesOn(a.likes, postId) == LikesOn(db.likes, postId) - {likeId};
    forall q | q in a.posts ensures a.posts[q].likesCount == |LikesOn(a.likes, q)| {
      if q != postId {
        assert LikesOn(a.likes, q) == LikesOn(db.likes, q);
      }
    }
  }

  /** Like notifications after an unlike: the one announcing the withdrawn like is the one deleted. */
  lemma UnlikeKeepsLikeEvents(db: Db, a: Db, postId: Id, user: UserId, likeId: Id)
    requires WellKeyed(db) && LikeEventsTrackLikes(db) && UniqueLikeEvents(db) && UniquePostLikes(db)
    requires postId in db.posts && likeId in db.likes && IsPostLike(db.likes[likeId], user, postId)
    requires a.posts.Keys == db.posts.Keys && forall q :: q in a.posts ==> a.posts[q].user == db.posts[q].user
    requires a.likes == db.likes - {likeId}
    requires a.events == match FindLikeEvent(db.events, user, db.posts[postId].user, postId, 0, db.nextId)
      case None => db.events
      case Some(eventId) => db.events - {eventId}
    ensures LikeEventsTrackLikes(a) && UniqueLikeEvents(a)
  {
    var author := db.posts[postId].user;
    forall e | e in a.events && a.events[e].details.LikeDetails?
      ensures HasLiked(a, a.events[e].sender, a.events[e].details.postId)
    {
      var ev := db.events[e];
      var q := ev.details.postId;
      assert HasLiked(db, ev.sender, q);
      var k :| k in db.likes && IsPostLike(db.likes[k], ev.sender, q);
      if k == likeId {
        assert false;
      }
      LikeSurvives(db, a, ev.sender, q, k);
    }
  }

  /** Keys, like targets and like uniqueness survive a step that only deletes likes and events. */
  lemma UnlikeKeepsKeys(db: Db, a: Db)
    requires WellKeyed(db) && LikesTargetPosts(db) && UniquePostLikes(db)
    requires a.nextId == db.nextId && a.comments == db.comments
    requires a.posts.Keys == db.posts.Keys && forall q :: q in a.posts ==> a.posts[q].id == db.posts[q].id
    requires a.likes.Keys <= db.likes.Keys && forall k :: k in a.likes ==> a.likes[k] == db.likes[k]
    requires a.events.Keys <= db.events.Keys && forall e :: e in a.events ==> a.events[e] == db.events[e]
    ensures WellKeyed(a) && LikesTargetPosts(a) && UniquePostLikes(a)
  {
  }

  lemma UnlikedValid(db: Db, postId: Id, user: UserId, likeId: Id)
    requires Valid(db) && postId in db.posts
    requires likeId in db.likes && IsPostLike(db.likes[likeId], user, postId)
    ensures Valid(Unliked(db, postId, user, likeId))
  {
    var a := Unliked(db, postId, user, likeId);
    UnlikeKeepsKeys(db, a);
    UnlikeKeepsCounters(db, a, postId, user, likeId);
    UnlikeKeepsLikeEvents(db, a, postId, user, likeId);
  }

  lemma UnlikePostPreservesValid(db: Db, postId: Id, user: UserId)
    requires Valid(db)
    ensures Valid(UnlikePost(db, postId, user).after)
  {
    if postId in db.posts {
      var found := FindLike(db.likes, user, postId, 0, db.nextId);
      if found.Some? {
        UnlikedValid(db, postId, user, found.value);
        assert UnlikePost(db, postId, user).after == Unliked(db, postId, user, found.value);
      }
    }
  }

  lemma AddCommentPreservesValid(db: Db, postId: Id, user: UserId, content: string)
    requires Valid(db)
    ensures Valid(AddComment(db, postId, user, content).after)
  {
    var t := AddComment(db, postId, user, content);
    if t.result == Success(true) {
      var a := t.after;
      assert WellKeyed(a);
      KeepsValidWithoutLikes(db, a);
    }
  }

  /**
   * A step that leaves the likes alone, keeps every post with its author and
   * counter, and adds no like notification keeps the store consistent.
   */
  lemma KeepsValidWithoutLikes(db: Db, a: Db)
    requires Valid(db) && WellKeyed(a)
    requires a.likes == db.likes && a.posts.Keys == db.posts.Keys
    requires forall q :: q in a.posts ==> a.posts[q].user == db.posts[q].user && a.posts[q].likesCount == db.posts[q].likesCount
    requires forall e :: e in a.events ==> (e in db.events && a.events[e] == db.events[e]) || !a.events[e].details.LikeDetails?
    ensures Valid(a)
  {
    assert LikesTargetPosts(a) && UniquePostLikes(a);
    assert CountersTrackLikes(a);
    assert LikeEventsTrackLikes(a);
  }

  /** After a successful unlike the user no longer likes the post. */
  lemma UnlikeClearsLike(db: Db, postId: Id, user: UserId)
    requires Valid(db)
    requires UnlikePost(db, postId, user).result
    ensures !HasLiked(UnlikePost(db, postId, user).after, user, postId)
  {
    var a := UnlikePost(db, postId, user).after;
    var likeId := FindLike(db.likes, user, postId, 0, db.nextId).value;
    assert a.likes == db.likes - {likeId};
  }

  /**
   * Liking twice: the second call is refused and changes nothing, so the
   * post gains one Like and one count in all.
   */
  lemma LikeTwiceCountsOnce(db: Db, postId: Id, user: UserId)
    requires Valid(db)
    ensures var t1 := LikePost(db, postId, user);
      var t2 := LikePost(t1.after, postId, user);
      && !t2.result
      && t2.after == t1.after
      && (t1.result ==>
            && |LikesOn(t2.after.likes, postId)| == |LikesOn(db.likes, postId)| + 1
            && t2.after.posts[postId].likesCount == db.posts[postId].likesCount + 1)
  {
    var t1 := LikePost(db, postId, user);
    assert WellKeyed(t1.after) by {
      LikePostPreservesValid(db, postId, user);
    }
    if t1.result {
      var likeId := db.nextId;
      assert t1.after.likes[likeId] == Like(likeId, user, postId, PostTarget);
      assert HasLiked(t1.after, user, postId);
      assert LikesOn(t1.after.likes, postId) == LikesOn(db.likes, postId) + {likeId};
    }
  }

  /** In the store right after a like, that like is the only one the user holds on the post. */
  lemma FreshLikeFound(db: Db, postId: Id, user: UserId)
    requires WellKeyed(db) && postId in db.posts && !HasLiked(db, user, postId)
    ensures FindLike(Liked(db, postId, user).likes, user, postId, 0, Liked(db, postId, user).nextId) == Some(db.nextId)
  {
    var a := Liked(db, postId, user);
    assert a.likes[db.nextId] == Like(db.nextId, user, postId, PostTarget);
  }

  /** In the store right after a like, the like notification found is the one the like created, if any. */
  lemma FreshLikeEventFound(db: Db, postId: Id, user: UserId)
    requires WellKeyed(db) && LikeEventsTrackLikes(db) && postId in db.posts && !HasLiked(db, user, postId)
    ensures var a := Liked(db, postId, user);
      var author := db.posts[postId].user;
      FindLikeEvent(a.events, user, author, postId, 0, a.nextId) == if author == user then None else Some(db.nextId + 1)
  {
    var a := Liked(db, postId, user);
    var author := db.posts[postId].user;
    if author != user {
      assert a.events[db.nextId + 1] == Event(db.nextId + 1, user, author, LikeDetails(postId));
    }
  }

  /** Withdrawing the like just recorded gives back the store it was recorded in, up to the id counter. */
  lemma LikedThenUnliked(db: Db, postId: Id, user: UserId)
    requires WellKeyed(db) && LikeEventsTrackLikes(db) && postId in db.posts && !HasLiked(db, user, postId)
    ensures var a := Liked(db, postId, user);
      postId in a.posts && db.nextId in a.likes && Unliked(a, postId, user, db.nextId) == db.(nextId := a.nextId)
  {
    var a := Liked(db, postId, user);
    var likeId := db.nextId;
    FreshLikeEventFound(db, postId, user);
    assert a.likes - {likeId} == db.likes;
    assert a.posts[postId := a.posts[postId].(likesCount := a.posts[postId].likesCount - 1)] == db.posts;
    if db.posts[postId].user != user {
      assert a.events - {likeId + 1} == db.events;
    }
  }

  /**
   * A like followed by an unlike by the same user restores the posts, the
   * comments, the likes and the notifications; only the id counter moved on.
   */
  lemma LikeUnlikeRoundTrip(db: Db, postId: Id, user: UserId)
    requires Valid(db)
    requires LikePost(db, postId, user).result
    ensures var t1 := LikePost(db, postId, user);
      var t2 := UnlikePost(t1.after, postId, user);
      t2.result && t2.after == db.(nextId := t1.after.nextId)
  {
    assert !HasLiked(db, user, postId);
    FreshLikeFound(db, postId, user);
    LikedThenUnliked(db, postId, user);
  }

  /**
   * Unlike, like, unlike by one user leaves the counter where the first
   * unlike put it: the original count when the user had not liked the post,
   * one less when they had.
   */
  lemma UnlikeLikeUnlikeCounter(db: Db, postId: Id, user: UserId)
    requires Valid(db) && postId in db.posts
    ensures var s1 := UnlikePost(db, postId, user).after;
      var s2 := LikePost(s1, postId, user).after;
      var s3 := UnlikePost(s2, postId, user).after;
      && postId in s3.posts
      && s3.posts[postId].likesCount == s1.posts[postId].likesCount
      && (!HasLiked(db, user, postId) ==> s3.posts[postId].likesCount == db.posts[postId].likesCount)
      && (HasLiked(db, user, postId) ==> s3.posts[postId].likesCount == db.posts[postId].likesCount - 1)
  {
    var t0 := UnlikePost(db, postId, user);
    var s1 := t0.after;
    UnlikePostPreservesValid(db, postId, user);
    if t0.result {
      UnlikeClearsLike(db, postId, user);
    }
    assert !HasLiked(s1, user, postId);
    assert LikePost(s1, postId, user).result;
    LikeUnlikeRoundTrip(s1, postId, user);
  }

  /**
   * Two different users who have not liked a post both like it: both calls
   * succeed, the counter rises by two and each user holds a Like on it.
   */
  lemma TwoLikersCountTwice(db: Db, postId: Id, u1: UserId, u2: UserId)
    requires Valid(db) && postId in db.posts && u1 != u2
    requires !HasLiked(db, u1, postId) && !HasLiked(db, u2, postId)
    ensures var t1 := LikePost(db, postId, u1);
      var t2 := LikePost(t1.after, postId, u2);
      && t1.result && t2.result
      && t2.after.posts[postId].likesCount == db.posts[postId].likesCount + 2
      && |LikesOn(t2.after.likes, postId)| == |LikesOn(db.likes, postId)| + 2
      && HasLiked(t2.after, u1, postId) && HasLiked(t2.after, u2, postId)
  {
    var t1 := LikePost(db, postId, u1);
    var k1 := db.nextId;
    LikePostPreservesValid(db, postId, u1);
    assert !HasLiked(t1.after, u2, postId);
    var t2 := LikePost(t1.after, postId, u2);
    var k2 := t1.after.nextId;
    LikePostPreservesValid(t1.after, postId, u2);
    assert t2.after.likes[k1] == Like(k1, u1, postId, PostTarget);
    assert t2.after.likes[k2] == Like(k2, u2, postId, PostTarget);
  }

  /** The listing is a reordering of the stored posts without repetition. */
  lemma NewestFirstListsEachPostOnce(db: Db)
    requires WellKeyed(db)
    ensures var r := NewestFirst(db);
      && |r| == |db.posts|
      && Ranking.Distinct(r)
      && (forall k :: k in db.posts ==> db.posts[k] in r)
  {
    var all := AllPosts(db);
    var r := NewestFirst(db);
    AllPostsFromStore(db);
    AllPostsCovers(db);
    assert Ranking.Distinct(all);
    Ranking.PermutationKeepsDistinct(all, r);
    Ranking.PermutationMembers(r, all);
  }

  /** Page 1 without a limit lists every stored post once, newest first. */
  lemma UnlimitedFirstPageListsAll(db: Db)
    requires WellKeyed(db)
    ensures var r := GetAllPosts(db, 1, 0);
      && r.Success?
      && |r.value.posts| == |db.posts| == r.value.total
      && Ranking.Distinct(r.value.posts)
      && (forall k :: k in db.posts ==> db.posts[k] in r.value.posts)
  {
    NewestFirstListsEachPostOnce(db);
    var order := NewestFirst(db);
    var r := GetAllPosts(db, 1, 0);
    assert r.value.posts == order by {
      assert forall i :: 0 <= i < |order| ==> r.value.posts[i] == order[i];
    }
  }

  /** A call without paging arguments lists the ten newest posts, or all of them when there are fewer. */
  lemma DefaultListingIsNewestTen(db: Db)
    requires WellKeyed(db)
    ensures var r := GetAllPosts(db);
      && r.Success?
      && |r.value.posts| == (if |db.posts| < 10 then |db.posts| else 10)
      && r.value.posts == NewestFirst(db)[..|r.value.posts|]
  {
    var order := NewestFirst(db);
    assert |order| == |db.posts| by {
      NewestFirstListsEachPostOnce(db);
    }
    var posts := GetAllPosts(db).value.posts;
    assert PageSkip(1, 10) == 0;
    assert posts == order[..|posts|] by {
      assert forall i :: 0 <= i < |posts| ==> posts[i] == order[i];
    }
  }

  /** No two different stored posts were created at the same instant. */
  ghost predicate DistinctCreationTimes(db: Db)
  {
    forall a, b :: a in db.posts && b in db.posts && a != b ==> db.posts[a].createdAt != db.posts[b].createdAt
  }

  /** Stored posts with distinct creation times never tie in the listing order. */
  lemma StoredPostsNoTies(db: Db, s: seq<Post>)
    requires DistinctCreationTimes(db)
    requires forall i :: 0 <= i < |s| ==> s[i] in db.posts.Values
    ensures Ranking.NoTies(s, ByCreatedAt)
  {
    forall i, j | 0 <= i < |s| && 0 <= j < |s| && s[i] != s[j]
      ensures ByCreatedAt(s[i]) != ByCreatedAt(s[j])
    {
      var a :| a in db.posts && db.posts[a] == s[i];
      var b :| b in db.posts && db.posts[b] == s[j];
      assert db.posts[a].createdAt != db.posts[b].createdAt;
    }
  }

  /**
   * When no two posts share a creation time, any arrangement of the stored
   * posts sorted newest first is the listing itself: independent queries
   * sorted on `createdAt` all see the same order.
   */
  lemma NewestFirstIsUnique(db: Db, order: seq<Post>)
    requires DistinctCreationTimes(db)
    requires multiset(order) == multiset(AllPosts(db)) && Ranking.SortedDesc(order, ByCreatedAt)
    ensures order == NewestFirst(db)
  {
    var all := AllPosts(db);
    var r := NewestFirst(db);
    Ranking.PermutationMembers(all, r);
    StoredPostsNoTies(db, r);
    Ranking.SortedPermutationUnique(r, order, ByCreatedAt);
  }

  /**
   * Pages of the same size taken from two separate newest-first queries never
   * show the same post, provided no two posts share a creation time.
   */
  lemma SeparateQueryPagesDoNotOverlap(db: Db, o1: seq<Post>, o2: seq<Post>, p: int, q: int, limit: int)
    requires WellKeyed(db) && DistinctCreationTimes(db) && 1 <= p < q && limit > 0
    requires multiset(o1) == multiset(AllPosts(db)) && Ranking.SortedDesc(o1, ByCreatedAt)
    requires multiset(o2) == multiset(AllPosts(db)) && Ranking.SortedDesc(o2, ByCreatedAt)
    ensures var a := Ranking.Window(o1, PageSkip(p, limit), Some(limit));
      var b := Ranking.Window(o2, PageSkip(q, limit), Some(limit));
      forall i, j :: 0 <= i < |a| && 0 <= j < |b| ==> a[i] != b[j]
  {
    NewestFirstIsUnique(db, o1);
    NewestFirstIsUnique(db, o2);
    PagesDoNotOverlap(db, p, q, limit);
  }

  /** Two different pages of the same size of one listing never show the same post. */
  lemma PagesDoNotOverlap(db: Db, p: int, q: int, limit: int)
    requires WellKeyed(db) && 1 <= p < q && limit > 0
    ensures var a := GetAllPosts(db, p, limit);
      var b := GetAllPosts(db, q, limit);
      && a.Success? && b.Success?
      && forall i, j :: 0 <= i < |a.value.posts| && 0 <= j < |b.value.posts| ==> a.value.posts[i] != b.value.posts[j]
  {
    NewestFirstListsEachPostOnce(db);
    var order := NewestFirst(db);
    var skipP, skipQ := PageSkip(p, limit), PageSkip(q, limit);
    LaterPageSkipsMore(p, q, limit);
    assert GetAllPosts(db, p, limit).value.posts == Ranking.Window(order, skipP, Some(limit));
    assert GetAllPosts(db, q, limit).value.posts == Ranking.Window(order, skipQ, Some(limit));
    Ranking.WindowsDisjoint(order, skipP, skipQ, limit);
  }

  /** A later page starts at least a whole page after an earlier one ends. */
  lemma LaterPageSkipsMore(p: int, q: int, limit: int)
    requires 1 <= p < q && limit > 0
    ensures 0 <= (p - 1) * limit && (p - 1) * limit + limit <= (q - 1) * limit
  {
    var d := q - p;
    assert (q - 1) * limit == (p - 1) * limit + d * limit;
    assert (d - 1) * limit >= 0;
    assert d * limit == (d - 1) * limit + limit;
  }
}
