/**
 * The hot-post cache: a ranked top-100 snapshot of the posts, stored under one
 * cache key with a fixed time to live, and the hit/miss read in front of it.
 * The clock is a parameter (seconds); a fault parameter says which store or
 * cache call throws.
 */
module HotPosts {

  import opened Wrappers
  import opened Store
  import Ranking

  /** Most entries a snapshot holds. */
  const HotListSize: nat := 100

  /** Seconds a snapshot stays readable after it is written. */
  const TtlSeconds: nat := 600

  /** The value under the cache key `hot:posts` and the instant it stops being readable. */
  datatype CacheEntry = CacheEntry(snapshot: seq<Post>, expiresAt: int)

  /** Which call of a recomputation throws: the ranked query, the key deletion or the write. */
  datatype UpdateFault = NoFault | QueryFails | DeleteFails | WriteFails

  /** What a read returns, and whether it asked for a recomputation. */
  datatype HotRead = HotRead(posts: seq<Post>, recompute: bool)

  /**
   * The hot order: like count, then a key computed from the comment-id list,
   * then creation time, each descending. The middle key is a parameter: see
   * `ArrayDescKey` and `CommentCount`.
   */
  function HotRank(commentsKey: seq<Id> -> int): Post -> Ranking.Rank
  {
    (p: Post) => Ranking.Rank(p.likesCount, commentsKey(p.comments), p.createdAt)
  }

  /** The largest element of a non-empty id list. */
  function MaxId(ids: seq<Id>): (m: Id)
    requires ids != []
    ensures m in ids
    ensures forall i :: 0 <= i < |ids| ==> ids[i] <= m
  {
    if |ids| == 1 then ids[0]
    else
      var rest := MaxId(ids[1..]);
      assert forall i :: 1 <= i < |ids| ==> ids[i] == ids[1..][i - 1];
      if ids[0] >= rest then ids[0] else rest
  }

  /**
   * The key a document store sorts an array field by in a descending sort:
   * its largest element, with an empty array after every non-empty one.
   */
  function ArrayDescKey(ids: seq<Id>): (k: int)
    ensures ids == [] ==> k < 0
    ensures ids != [] ==> k in ids && forall i :: 0 <= i < |ids| ==> ids[i] <= k
  {
    if ids == [] then -1 else MaxId(ids)
  }

  /** The number of comments: the key the ranking is meant to use. */
  function CommentCount(ids: seq<Id>): int
  {
    |ids|
  }

  /** The top `HotListSize` posts of the store in the hot order: the ranked query with its limit. */
  function RankHotPosts(db: Db, commentsKey: seq<Id> -> int): (r: seq<Post>)
    ensures |r| <= HotListSize
    ensures Ranking.SortedDesc(r, HotRank(commentsKey))
    ensures forall i :: 0 <= i < |r| ==> r[i] in db.posts.Values
  {
    Ranking.Top(AllPosts(db), HotRank(commentsKey), HotListSize)
  }

  /**
   * The snapshot holds as many posts as the store allows, up to 100, each a
   * stored post under its own key and none twice.
   */
  lemma RankHotPostsFromStore(db: Db, commentsKey: seq<Id> -> int)
    requires WellKeyed(db)
    ensures var r := RankHotPosts(db, commentsKey);
      && |r| == (if |db.posts| <= HotListSize then |db.posts| else HotListSize)
      && (forall i :: 0 <= i < |r| ==> r[i].id in db.posts && db.posts[r[i].id] == r[i])
      && Ranking.Distinct(r)
  {
    var all := AllPosts(db);
    var r := RankHotPosts(db, commentsKey);
    AllPostsFromStore(db);
    Ranking.TopDistinct(all, HotRank(commentsKey), HotListSize);
    forall i | 0 <= i < |r| ensures r[i].id in db.posts && db.posts[r[i].id] == r[i] {
      var j :| 0 <= j < |all| && all[j] == r[i];
    }
  }

  /** With at most 100 posts stored, the snapshot holds every one of them. */
  lemma RankHotPostsKeepsAll(db: Db, commentsKey: seq<Id> -> int)
    requires WellKeyed(db) && |db.posts| <= HotListSize
    ensures forall k :: k in db.posts ==> db.posts[k] in RankHotPosts(db, commentsKey)
  {
    var all := AllPosts(db);
    AllPostsFromStore(db);
    AllPostsCovers(db);
    Ranking.TopKeepsAll(all, HotRank(commentsKey), HotListSize);
    forall k | k in db.posts ensures db.posts[k] in RankHotPosts(db, commentsKey) {
      var j :| 0 <= j < |all| && all[j] == db.posts[k];
    }
  }

  /** The snapshot is a top-N prefix: no stored post left out ranks above its last entry. */
  lemma RankHotPostsIsTopN(db: Db, commentsKey: seq<Id> -> int)
    requires WellKeyed(db)
    ensures var r := RankHotPosts(db, commentsKey);
      forall k :: k in db.posts && db.posts[k] !in r ==>
        |r| > 0 && Ranking.AtLeast(HotRank(commentsKey)(r[|r| - 1]), HotRank(commentsKey)(db.posts[k]))
  {
    AllPostsCovers(db);
    forall k | k in db.posts && db.posts[k] !in RankHotPosts(db, commentsKey)
      ensures var r := RankHotPosts(db, commentsKey);
        |r| > 0 && Ranking.AtLeast(HotRank(commentsKey)(r[|r| - 1]), HotRank(commentsKey)(db.posts[k]))
    {
      Ranking.TopIsTop(AllPosts(db), HotRank(commentsKey), HotListSize, db.posts[k]);
    }
  }

  /** In a snapshot, a post that strictly outranks another comes before it. */
  lemma StrictlyHigherComesFirst(db: Db, commentsKey: seq<Id> -> int, i: nat, j: nat)
    requires var r := RankHotPosts(db, commentsKey); i < |r| && j < |r|
    requires var r := RankHotPosts(db, commentsKey);
      !Ranking.AtLeast(HotRank(commentsKey)(r[j]), HotRank(commentsKey)(r[i]))
    ensures i < j
  {
    Ranking.StrictlyHigherFirst(RankHotPosts(db, commentsKey), HotRank(commentsKey), i, j);
  }

  /**
   * A recomputation: rank, delete the key, write the snapshot with expiry
   * `now + TtlSeconds`. The error of any failing call is swallowed: a failed
   * query or deletion leaves the cache as it was, a failed write after the
   * deletion leaves it empty.
   */
  function UpdateHotPosts(db: Db, cache: Option<CacheEntry>, now: int, commentsKey: seq<Id> -> int, fault: UpdateFault): (c: Option<CacheEntry>)
    ensures fault == NoFault ==> c.Some? && c.value.expiresAt == now + TtlSeconds
    ensures fault == NoFault ==> c.value.snapshot == RankHotPosts(db, commentsKey)
    ensures fault == QueryFails || fault == DeleteFails ==> c == cache
    ensures fault == WriteFails ==> c == None
  {
    match fault
    case QueryFails => cache
    case DeleteFails => cache
    case WriteFails => None
    case NoFault => Some(CacheEntry(RankHotPosts(db, commentsKey), now + TtlSeconds))
  }

  /** The snapshot readable at `now`, if any: the cache evicts an entry once its expiry is reached. */
  function Lookup(cache: Option<CacheEntry>, now: int): Option<seq<Post>>
  {
    if cache.Some? && now < cache.value.expiresAt then Some(cache.value.snapshot) else None
  }

  /**
   * The read path: a hit returns the cached snapshot; a miss returns nothing
   * and asks for a recomputation without waiting for it; a failing cache read
   * returns nothing.
   */
  function GetHotPosts(cache: Option<CacheEntry>, now: int, readFails: bool): (r: HotRead)
    ensures readFails ==> r.posts == [] && !r.recompute
    ensures !readFails && cache.Some? && now < cache.value.expiresAt ==> r.posts == cache.value.snapshot && !r.recompute
    ensures !readFails && (cache.None? || now >= cache.value.expiresAt) ==> r.posts == [] && r.recompute
  {
    if readFails then HotRead([], false)
    else match Lookup(cache, now)
      case Some(posts) => HotRead(posts, false)
      case None => HotRead([], true)
  }

  /**
   * A successful recomputation is served unchanged for the next 600 seconds,
   * whatever the cache held before, and misses from then on.
   */
  lemma ReadAfterUpdate(db: Db, cache: Option<CacheEntry>, now: int, later: int, commentsKey: seq<Id> -> int)
    requires now <= later
    ensures var c := UpdateHotPosts(db, cache, now, commentsKey, NoFault);
      var r := GetHotPosts(c, later, false);
      && (later < now + TtlSeconds ==> r == HotRead(RankHotPosts(db, commentsKey), false))
      && (later >= now + TtlSeconds ==> r == HotRead([], true))
  {
  }

  /**
   * The hot order compares comment-id lists by their largest id, so a post
   * with one recent comment outranks a post with two older ones at equal
   * likes and equal creation time.
   */
  lemma ArrayKeyMisranks()
    ensures var busy := Post(1, 10, "busy", [3, 4], 5, 0);
      var quiet := Post(2, 11, "quiet", [9], 5, 0);
      && |busy.comments| > |quiet.comments|
      && !Ranking.AtLeast(HotRank(ArrayDescKey)(busy), HotRank(ArrayDescKey)(quiet))
  {
    var busy := Post(1, 10, "busy", [3, 4], 5, 0);
    var quiet := Post(2, 11, "quiet", [9], 5, 0);
    assert ArrayDescKey(busy.comments) == 4;
    assert ArrayDescKey(quiet.comments) == 9;
  }

  /**
   * With the comment count as middle key, at equal likes a post with more
   * comments strictly outranks one with fewer, so in a snapshot holding both
   * it comes first.
   */
  lemma CommentCountRanksBusierFirst(db: Db)
    ensures var r := RankHotPosts(db, CommentCount);
      forall i, j :: 0 <= i < |r| && 0 <= j < |r| && r[i].likesCount == r[j].likesCount && |r[i].comments| > |r[j].comments| ==> i < j
  {
    var r := RankHotPosts(db, CommentCount);
    forall i, j | 0 <= i < |r| && 0 <= j < |r| && r[i].likesCount == r[j].likesCount && |r[i].comments| > |r[j].comments|
      ensures i < j
    {
      assert CommentCount(r[i].comments) > CommentCount(r[j].comments);
      assert !Ranking.AtLeast(HotRank(CommentCount)(r[j]), HotRank(CommentCount)(r[i]));
      StrictlyHigherComesFirst(db, CommentCount, i, j);
    }
  }
}
