/**
 * The primary store of the interaction engine: Post, Comment, Like and Event
 * records, each collection keyed by record id. `nextId` stands for the store's
 * id generator: every id handed out so far is below it.
 */
module Store {

  import opened Wrappers

  type Id = nat
  type UserId = nat

  /** Longest post or comment body the engine accepts. */
  const MaxContentLength: nat := 280

  datatype Post = Post(id: Id, user: UserId, content: string, comments: seq<Id>, likesCount: int, createdAt: int)

  /** A comment on `post`; `replies` holds the ids of nested comments. */
  datatype Comment = Comment(id: Id, user: UserId, content: string, post: Id, replies: seq<Id>, likesCount: int)

  /** The kind of record a Like points at. */
  datatype TargetModel = PostTarget | CommentTarget

  datatype Like = Like(id: Id, user: UserId, target: Id, targetModel: TargetModel)

  /** The kind of a notification together with the payload that kind carries. */
  datatype Details =
    | LikeDetails(postId: Id)
    | CommentDetails(postId: Id, commentId: Id)
    | FollowDetails
    | FriendRequestDetails

  datatype Event = Event(id: Id, sender: UserId, receiver: UserId, details: Details)

  datatype Db = Db(
    posts: map<Id, Post>,
    comments: map<Id, Comment>,
    likes: map<Id, Like>,
    events: map<Id, Event>,
    nextId: Id)

  datatype PostError = ContentTooLong | NegativeSkip

  /** `l` is `user`'s like of the post `postId`. */
  predicate IsPostLike(l: Like, user: UserId, postId: Id)
  {
    l.user == user && l.target == postId && l.targetModel == PostTarget
  }

  /** `e` is the notification that `sender` liked `receiver`'s post `postId`. */
  predicate IsLikeEvent(e: Event, sender: UserId, receiver: UserId, postId: Id)
  {
    e.sender == sender && e.receiver == receiver && e.details == LikeDetails(postId)
  }

  /** A like or comment notification about the post `postId`. */
  predicate RefersToPost(d: Details, postId: Id)
  {
    (d.LikeDetails? || d.CommentDetails?) && d.postId == postId
  }

  /** The ids of the Like records on the post `postId`. */
  function LikesOn(likes: map<Id, Like>, postId: Id): set<Id>
  {
    set k | k in likes && likes[k].target == postId && likes[k].targetModel == PostTarget
  }

  ghost predicate HasLiked(db: Db, user: UserId, postId: Id)
  {
    exists k :: k in db.likes && IsPostLike(db.likes[k], user, postId)
  }

  /** Every record is stored under its own id, and every id is below `nextId`. */
  ghost predicate WellKeyed(db: Db)
  {
    && (forall k :: k in db.posts ==> db.posts[k].id == k && k < db.nextId)
    && (forall k :: k in db.comments ==> db.comments[k].id == k && k < db.nextId)
    && (forall k :: k in db.likes ==> db.likes[k].id == k && k < db.nextId)
    && (forall k :: k in db.events ==> db.events[k].id == k && k < db.nextId)
  }

  /** Every like of a post points at a stored post. */
  ghost predicate LikesTargetPosts(db: Db)
  {
    forall k :: k in db.likes && db.likes[k].targetModel == PostTarget ==> db.likes[k].target in db.posts
  }

  /** At most one Like per (user, post) pair. */
  ghost predicate UniquePostLikes(db: Db)
  {
    forall k1, k2 ::
      (k1 in db.likes && k2 in db.likes && db.likes[k1].targetModel == PostTarget
       && IsPostLike(db.likes[k2], db.likes[k1].user, db.likes[k1].target)) ==> k1 == k2
  }

  /** Each post's like counter equals the number of Like records on it. */
  ghost predicate CountersTrackLikes(db: Db)
  {
    forall p :: p in db.posts ==> db.posts[p].likesCount == |LikesOn(db.likes, p)|
  }

  /**
   * A like notification exists only while the like it announces does: it is
   * about a stored post, addressed to that post's author, from a user who
   * currently likes the post.
   */
  ghost predicate LikeEventsTrackLikes(db: Db)
  {
    forall e :: e in db.events && db.events[e].details.LikeDetails? ==>
      && db.events[e].details.postId in db.posts
      && db.events[e].receiver == db.posts[db.events[e].details.postId].user
      && HasLiked(db, db.events[e].sender, db.events[e].details.postId)
  }

  /** At most one like notification per (sender, post) pair. */
  ghost predicate UniqueLikeEvents(db: Db)
  {
    forall e1, e2 ::
      (e1 in db.events && e2 in db.events && db.events[e1].details.LikeDetails?
       && db.events[e2].details == db.events[e1].details && db.events[e2].sender == db.events[e1].sender) ==> e1 == e2
  }

  /** The consistency the engine's transactions keep. */
  ghost predicate Valid(db: Db)
  {
    && WellKeyed(db)
    && LikesTargetPosts(db)
    && UniquePostLikes(db)
    && CountersTrackLikes(db)
    && LikeEventsTrackLikes(db)
    && UniqueLikeEvents(db)
  }

  /** The store holding no records at all. */
  function EmptyDb(): (db: Db)
    ensures Valid(db)
  {
    Db(map[], map[], map[], map[], 0)
  }

  /**
   * The lowest-id like of `postId` by `user` among the ids in [from, bound):
   * the record a `findOne` on (user, target, targetModel) returns.
   */
  function FindLike(likes: map<Id, Like>, user: UserId, postId: Id, from: nat, bound: nat): (r: Option<Id>)
    decreases bound - from
    ensures r.Some? ==> from <= r.value < bound && r.value in likes && IsPostLike(likes[r.value], user, postId)
    ensures r.None? ==> forall k :: from <= k < bound && k in likes ==> !IsPostLike(likes[k], user, postId)
    ensures r.Some? ==> forall k :: from <= k < r.value && k in likes ==> !IsPostLike(likes[k], user, postId)
  {
    if from >= bound then None
    else if from in likes && IsPostLike(likes[from], user, postId) then Some(from)
    else FindLike(likes, user, postId, from + 1, bound)
  }

  /** The lowest-id like notification from `sender` to `receiver` about `postId`, among ids in [from, bound). */
  function FindLikeEvent(events: map<Id, Event>, sender: UserId, receiver: UserId, postId: Id, from: nat, bound: nat): (r: Option<Id>)
    decreases bound - from
    ensures r.Some? ==> from <= r.value < bound && r.value in events && IsLikeEvent(events[r.value], sender, receiver, postId)
    ensures r.None? ==> forall k :: from <= k < bound && k in events ==> !IsLikeEvent(events[k], sender, receiver, postId)
    ensures r.Some? ==> forall k :: from <= k < r.value && k in events ==> !IsLikeEvent(events[k], sender, receiver, postId)
  {
    if from >= bound then None
    else if from in events && IsLikeEvent(events[from], sender, receiver, postId) then Some(from)
    else FindLikeEvent(events, sender, receiver, postId, from + 1, bound)
  }

  /** The keys of `m` in [from, bound). */
  function KeysIn<V>(m: map<Id, V>, from: nat, bound: nat): set<Id>
  {
    set k | k in m && from <= k < bound
  }

  /** The keys of `m` in [from, bound), in increasing order. */
  function KeysBetween<V>(m: map<Id, V>, from: nat, bound: nat): seq<Id>
    decreases bound - from
  {
    if from >= bound then []
    else if from in m then [from] + KeysBetween(m, from + 1, bound)
    else KeysBetween(m, from + 1, bound)
  }

  /** `r` lists exactly the keys of `m` in [from, bound), in strictly increasing order. */
  ghost predicate ListsKeys<V>(r: seq<Id>, m: map<Id, V>, from: nat, bound: nat)
  {
    && (forall i :: 0 <= i < |r| ==> r[i] in m && from <= r[i] < bound)
    && (forall i, j :: 0 <= i < j < |r| ==> r[i] < r[j])
    && (forall k :: k in KeysIn(m, from, bound) ==> k in r)
  }

  /** The enumeration lists every key of the range, only those, in increasing order. */
  lemma {:induction false} KeysBetweenLists<V>(m: map<Id, V>, from: nat, bound: nat)
    decreases bound - from
    ensures ListsKeys(KeysBetween(m, from, bound), m, from, bound)
  {
    if from < bound {
      KeysBetweenLists(m, from + 1, bound);
      var rest := KeysBetween(m, from + 1, bound);
      var r := KeysBetween(m, from, bound);
      if from in m {
        assert r == [from] + rest;
        assert forall i :: 1 <= i < |r| ==> r[i] == rest[i - 1];
        forall k | k in KeysIn(m, from, bound) ensures k in r {
          if k != from {
            assert k in KeysIn(m, from + 1, bound);
          }
        }
      } else {
        assert r == rest;
        forall k | k in KeysIn(m, from, bound) ensures k in r {
          assert k in KeysIn(m, from + 1, bound);
        }
      }
    }
  }

  /** The enumeration lists as many keys as the range holds. */
  lemma {:induction false} KeysBetweenCount<V>(m: map<Id, V>, from: nat, bound: nat)
    decreases bound - from
    ensures |KeysBetween(m, from, bound)| == |KeysIn(m, from, bound)|
  {
    if from >= bound {
      assert KeysIn(m, from, bound) == {};
    } else {
      KeysBetweenCount(m, from + 1, bound);
      if from in m {
        assert KeysIn(m, from, bound) == KeysIn(m, from + 1, bound) + {from};
      } else {
        assert KeysIn(m, from, bound) == KeysIn(m, from + 1, bound);
      }
    }
  }

  /** Every stored post, in id order: the collection a query without filter scans. */
  function AllPosts(db: Db): (r: seq<Post>)
    ensures forall i :: 0 <= i < |r| ==> r[i] in db.posts.Values
  {
    var ks := KeysBetween(db.posts, 0, db.nextId);
    KeysBetweenLists(db.posts, 0, db.nextId);
    seq(|ks|, i requires 0 <= i < |ks| => db.posts[ks[i]])
  }

  /** In a well-keyed store the scan lists each stored post under its own key, none twice, as many as are stored. */
  lemma AllPostsFromStore(db: Db)
    requires WellKeyed(db)
    ensures var r := AllPosts(db);
      && |r| == |db.posts|
      && (forall i :: 0 <= i < |r| ==> r[i].id in db.posts && db.posts[r[i].id] == r[i])
      && (forall i, j :: 0 <= i < j < |r| ==> r[i] != r[j])
  {
    var ks := KeysBetween(db.posts, 0, db.nextId);
    var r := AllPosts(db);
    KeysBetweenLists(db.posts, 0, db.nextId);
    assert forall i :: 0 <= i < |r| ==> r[i] == db.posts[ks[i]];
    KeysBetweenCount(db.posts, 0, db.nextId);
    assert KeysIn(db.posts, 0, db.nextId) == db.posts.Keys;
    forall i, j | 0 <= i < j < |r| ensures r[i] != r[j] {
      assert r[i].id == ks[i] && r[j].id == ks[j];
    }
  }

  /** In a well-keyed store the scan misses no stored post. */
  lemma AllPostsCovers(db: Db)
    requires WellKeyed(db)
    ensures forall k :: k in db.posts ==> db.posts[k] in AllPosts(db)
  {
    var ks := KeysBetween(db.posts, 0, db.nextId);
    var r := AllPosts(db);
    KeysBetweenLists(db.posts, 0, db.nextId);
    forall k | k in db.posts ensures db.posts[k] in r {
      assert k in KeysIn(db.posts, 0, db.nextId);
      var i :| 0 <= i < |ks| && ks[i] == k;
      assert r[i] == db.posts[k];
    }
  }
}
