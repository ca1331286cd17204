/**
 * Search-index bootstrap: up to three attempts, each of which pings the index
 * store, creates the 'posts' and 'users' indexes that are missing and
 * bulk-loads every post and user. The environment of each attempt is an
 * abstract outcome; waits between attempts are recorded, not slept.
 */
module SearchSetup {

  import opened Wrappers

  datatype IndexName = PostsIndex | UsersIndex

  /** The author a post is populated with, when it still exists. */
  datatype Author = Author(id: nat, userName: string)

  /** A stored post as the bootstrap reads it, author populated. */
  datatype PostRow = PostRow(id: nat, content: string, author: Option<Author>, createdAt: int)

  /** A stored user as the bootstrap reads it. */
  datatype UserRow = UserRow(
    id: nat, userName: string, accountName: string, bio: Option<string>, isPublic: bool,
    avatarUrl: string, followersCount: int, followingCount: int, createdAt: int)

  /** The body of one search document. */
  datatype Document =
    | PostDocument(content: string, userId: nat, userName: string, createdAt: int)
    | UserDocument(
        userName: string, accountName: string, bio: string, isPublic: bool,
        avatarUrl: string, followersCount: int, followingCount: int, createdAt: int)

  /** One entry of a bulk request: an index action naming the document id, or the document that follows it. */
  datatype BulkOp = IndexAction(index: IndexName, docId: nat) | Source(doc: Document)

  /** A bulk request that was issued, and whether the index store accepted it. */
  datatype BulkCall = BulkCall(index: IndexName, ops: seq<BulkOp>, accepted: bool)

  /**
   * How the environment behaves during one attempt: whether the ping, the
   * existence checks, each index creation, the record reads and each bulk
   * request succeed.
   */
  datatype Attempt = Attempt(
    pingOk: bool, existsOk: bool, createPostsOk: bool, createUsersOk: bool,
    readOk: bool, postsBulkOk: bool, usersBulkOk: bool)

  /** Which of the two indexes exist. */
  datatype Indexes = Indexes(posts: bool, users: bool)

  /** The part of an attempt that prepares the indexes: whether it got through, the indexes afterwards, and how many times it created each (0 or 1). */
  datatype IndexStep = IndexStep(ok: bool, indexes: Indexes, postsCreated: int, usersCreated: int)

  /** What one attempt did: its index step, whether the attempt got through and the bulk requests it made. */
  datatype AttemptResult = AttemptResult(step: IndexStep, ok: bool, bulks: seq<BulkCall>)

  /** What the whole bootstrap did; `postsCreated` and `usersCreated` count the creations of each index over all attempts. */
  datatype Trace = Trace(
    attempts: nat, waits: seq<nat>, postsCreated: int, usersCreated: int, bulks: seq<BulkCall>,
    indexes: Indexes, ready: bool)

  function PostDoc(p: PostRow): Document
    requires p.author.Some?
  {
    PostDocument(p.content, p.author.value.id, p.author.value.userName, p.createdAt)
  }

  /** A missing biography is indexed as the empty string. */
  function UserDoc(u: UserRow): (d: Document)
    ensures d.UserDocument? && d.bio == (if u.bio.Some? then u.bio.value else "")
    ensures d.userName == u.userName && d.accountName == u.accountName && d.createdAt == u.createdAt
    ensures d.isPublic == u.isPublic && d.avatarUrl == u.avatarUrl
    ensures d.followersCount == u.followersCount && d.followingCount == u.followingCount
  {
    UserDocument(u.userName, u.accountName, match u.bio case Some(b) => b case None => "",
      u.isPublic, u.avatarUrl, u.followersCount, u.followingCount, u.createdAt)
  }

  /**
   * The bulk body for the posts: an action naming the post id followed by the
   * document, for every post in order. Reading the id of a post whose author
   * is gone throws, which the model gives as `None`.
   */
  function PostOps(posts: seq<PostRow>): Option<seq<BulkOp>>
  {
    if posts == [] then Some([])
    else if posts[0].author.None? then None
    else match PostOps(posts[1..])
      case None => None
      case Some(rest) => Some([IndexAction(PostsIndex, posts[0].id), Source(PostDoc(posts[0]))] + rest)
  }

  /**
   * The post body exists exactly when every post still has its author; it
   * then has two entries per post, in input order: the action naming the
   * post id, then the document.
   */
  lemma {:induction false} PostOpsShape(posts: seq<PostRow>)
    ensures var r := PostOps(posts);
      && (r.Some? <==> forall i :: 0 <= i < |posts| ==> posts[i].author.Some?)
      && (r.Some? ==> |r.value| == 2 * |posts|)
      && (r.Some? ==> forall i :: 0 <= i < |posts| ==>
            && r.value[2 * i] == IndexAction(PostsIndex, posts[i].id)
            && r.value[2 * i + 1] == Source(PostDoc(posts[i])))
  {
    if posts != [] {
      PostOpsShape(posts[1..]);
      forall i | 1 <= i < |posts| ensures posts[i] == posts[1..][i - 1] {
      }
      if posts[0].author.Some? && PostOps(posts[1..]).Some? {
        var rest := PostOps(posts[1..]).value;
        var r := PostOps(posts).value;
        assert r == [IndexAction(PostsIndex, posts[0].id), Source(PostDoc(posts[0]))] + rest;
        forall i | 1 <= i < |posts|
          ensures r[2 * i] == IndexAction(PostsIndex, posts[i].id) && r[2 * i + 1] == Source(PostDoc(posts[i]))
        {
          assert r[2 * i] == rest[2 * (i - 1)] && r[2 * i + 1] == rest[2 * (i - 1) + 1];
        }
      }
    }
  }

  /** The bulk body for the users: an action naming the user id followed by the document, for every user in order. */
  function UserOps(users: seq<UserRow>): seq<BulkOp>
  {
    if users == [] then []
    else [IndexAction(UsersIndex, users[0].id), Source(UserDoc(users[0]))] + UserOps(users[1..])
  }

  /** The user body has two entries per user, in input order: the action naming the user id, then the document. */
  lemma {:induction false} UserOpsShape(users: seq<UserRow>)
    ensures var r := UserOps(users);
      && |r| == 2 * |users|
      && forall i :: 0 <= i < |users| ==>
            && r[2 * i] == IndexAction(UsersIndex, users[i].id)
            && r[2 * i + 1] == Source(UserDoc(users[i]))
  {
    if users != [] {
      UserOpsShape(users[1..]);
      var rest := UserOps(users[1..]);
      var r := UserOps(users);
      forall i | 1 <= i < |users|
        ensures r[2 * i] == IndexAction(UsersIndex, users[i].id) && r[2 * i + 1] == Source(UserDoc(users[i]))
      {
        assert users[i] == users[1..][i - 1];
        assert r[2 * i] == rest[2 * (i - 1)] && r[2 * i + 1] == rest[2 * (i - 1) + 1];
      }
    }
  }

  /**
   * The post sync of one attempt: no request when there are no posts, none
   * when building the body throws; a rejected request is only logged.
   */
  function SyncPosts(posts: seq<PostRow>, accepted: bool): (r: seq<BulkCall>)
    ensures |r| <= 1
    ensures r != [] <==> posts != [] && forall i :: 0 <= i < |posts| ==> posts[i].author.Some?
    ensures r != [] ==> PostOps(posts).Some? && r == [BulkCall(PostsIndex, PostOps(posts).value, accepted)]
    ensures r != [] ==> |r[0].ops| == 2 * |posts|
  {
    PostOpsShape(posts);
    if posts == [] then []
    else match PostOps(posts)
      case None => []
      case Some(ops) => [BulkCall(PostsIndex, ops, accepted)]
  }

  /** The user sync of one attempt: no request when there are no users; a rejected request is only logged. */
  function SyncUsers(users: seq<UserRow>, accepted: bool): (r: seq<BulkCall>)
    ensures users == [] <==> r == []
    ensures r != [] ==> r == [BulkCall(UsersIndex, UserOps(users), accepted)]
  {
    if users == [] then [] else [BulkCall(UsersIndex, UserOps(users), accepted)]
  }

  /** The bulk requests of an attempt that gets through: the post sync, then the user sync, each with its own answer. */
  function AttemptBulks(a: Attempt, posts: seq<PostRow>, users: seq<UserRow>): seq<BulkCall>
  {
    SyncPosts(posts, a.postsBulkOk) + SyncUsers(users, a.usersBulkOk)
  }

  /**
   * The ping, the existence checks and the creation of each missing index,
   * in that order, from index state `ix`. The first failing call throws;
   * an index created before it stays.
   */
  function EnsureIndexes(pingOk: bool, existsOk: bool, createPostsOk: bool, createUsersOk: bool, ix: Indexes): (s: IndexStep)
    ensures !pingOk ==> s == IndexStep(false, ix, 0, 0)
    ensures !existsOk ==> s.indexes == ix
    ensures !ix.posts && !createPostsOk ==> !s.indexes.posts
    ensures !ix.users && !createUsersOk ==> !s.indexes.users
    ensures pingOk && existsOk && (ix.posts || createPostsOk) ==> s.indexes.posts
    ensures !ix.posts && !createPostsOk ==> s.indexes.users == ix.users && s.usersCreated == 0
    ensures s.ok <==> (pingOk && existsOk && (ix.posts || createPostsOk) && (ix.users || createUsersOk))
    ensures s.ok ==> s.indexes == Indexes(true, true)
    ensures ix.posts ==> s.indexes.posts && s.postsCreated == 0
    ensures ix.users ==> s.indexes.users && s.usersCreated == 0
    ensures !ix.posts ==> s.postsCreated == if s.indexes.posts then 1 else 0
    ensures !ix.users ==> s.usersCreated == if s.indexes.users then 1 else 0
  {
    if !pingOk || !existsOk then IndexStep(false, ix, 0, 0)
    else if !ix.posts && !createPostsOk then IndexStep(false, ix, 0, 0)
    else
      var postsCreated := if ix.posts then 0 else 1;
      if !ix.users && !createUsersOk then IndexStep(false, ix.(posts := true), postsCreated, 0)
      else IndexStep(true, Indexes(true, true), postsCreated, if ix.users then 0 else 1)
  }

  /**
   * One attempt from index state `ix`: the index step, then the record
   * reads, then the post and the user sync. A throwing call before the syncs
   * ends the attempt; the bulk requests cannot end it.
   */
  function RunAttempt(a: Attempt, ix: Indexes, posts: seq<PostRow>, users: seq<UserRow>): (r: AttemptResult)
    ensures !a.pingOk ==> r == AttemptResult(IndexStep(false, ix, 0, 0), false, [])
    ensures r.step == EnsureIndexes(a.pingOk, a.existsOk, a.createPostsOk, a.createUsersOk, ix)
    ensures r.ok <==> (a.pingOk && a.existsOk && a.readOk && (ix.posts || a.createPostsOk) && (ix.users || a.createUsersOk))
    ensures !r.ok ==> r.bulks == []
    ensures r.ok ==> r.bulks == AttemptBulks(a, posts, users)
  {
    var s := EnsureIndexes(a.pingOk, a.existsOk, a.createPostsOk, a.createUsersOk, ix);
    if s.ok && a.readOk then AttemptResult(s, true, AttemptBulks(a, posts, users))
    else AttemptResult(s, false, [])
  }

  function Pow2(k: nat): (r: nat)
    ensures r >= 1
  {
    if k == 0 then 1 else 2 * Pow2(k - 1)
  }

  /** The wait after the `failed`-th failure: one second doubled for every earlier failure, in milliseconds. */
  function BackoffMs(failed: nat): nat
    requires failed >= 1
  {
    Pow2(failed - 1) * 1000
  }

  /**
   * Attempts `retry`, `retry + 1`, ... until one gets through or the third
   * (the retry limit `MAX_RETRIES`) has failed. After a failure that is not the last, the wait is recorded
   * and the next attempt starts from the index state the failed one left.
   */
  function Retry(outcomes: seq<Attempt>, retry: nat, ix: Indexes, posts: seq<PostRow>, users: seq<UserRow>): (t: Trace)
    requires retry < 3 <= |outcomes|
    decreases 3 - retry
    ensures retry < t.attempts <= 3
    ensures |t.waits| == t.attempts - retry - 1
    ensures !t.ready ==> t.attempts == 3 && t.bulks == []
    ensures RunAttempt(outcomes[retry], ix, posts, users).ok ==> t.ready && t.attempts == retry + 1 && t.waits == []
    ensures t.ready ==> var a := outcomes[t.attempts - 1]; a.pingOk && a.existsOk && a.readOk
    ensures (forall i :: retry <= i < 3 ==> !outcomes[i].readOk) ==> !t.ready && t.bulks == []
  {
    var r := RunAttempt(outcomes[retry], ix, posts, users);
    var s := r.step;
    if r.ok then Trace(retry + 1, [], s.postsCreated, s.usersCreated, r.bulks, s.indexes, true)
    else if retry + 1 >= 3 then Trace(retry + 1, [], s.postsCreated, s.usersCreated, [], s.indexes, false)
    else
      var rest := Retry(outcomes, retry + 1, s.indexes, posts, users);
      rest.(waits := [BackoffMs(retry + 1)] + rest.waits,
            postsCreated := s.postsCreated + rest.postsCreated,
            usersCreated := s.usersCreated + rest.usersCreated)
  }

  /** An index that exists is never dropped and never created again. */
  lemma {:induction false} RetryKeepsIndexes(outcomes: seq<Attempt>, retry: nat, ix: Indexes, posts: seq<PostRow>, users: seq<UserRow>)
    requires retry < 3 <= |outcomes|
    decreases 3 - retry
    ensures var t := Retry(outcomes, retry, ix, posts, users);
      && (ix.posts ==> t.indexes.posts && t.postsCreated == 0)
      && (ix.users ==> t.indexes.users && t.usersCreated == 0)
  {
    var r := RunAttempt(outcomes[retry], ix, posts, users);
    if !r.ok && retry + 1 < 3 {
      RetryKeepsIndexes(outcomes, retry + 1, r.step.indexes, posts, users);
    }
  }

  /** A missing 'posts' index is created once if it exists at the end, and not at all otherwise. */
  lemma {:induction false} RetryCreatesMissingPosts(outcomes: seq<Attempt>, retry: nat, ix: Indexes, posts: seq<PostRow>, users: seq<UserRow>)
    requires retry < 3 <= |outcomes|
    requires !ix.posts
    decreases 3 - retry
    ensures var t := Retry(outcomes, retry, ix, posts, users);
      t.postsCreated == if t.indexes.posts then 1 else 0
  {
    var r := RunAttempt(outcomes[retry], ix, posts, users);
    if !r.ok && retry + 1 < 3 {
      if r.step.indexes.posts {
        RetryKeepsIndexes(outcomes, retry + 1, r.step.indexes, posts, users);
      } else {
        RetryCreatesMissingPosts(outcomes, retry + 1, r.step.indexes, posts, users);
      }
    }
  }

  /** A missing 'users' index is created once if it exists at the end, and not at all otherwise. */
  lemma {:induction false} RetryCreatesMissingUsers(outcomes: seq<Attempt>, retry: nat, ix: Indexes, posts: seq<PostRow>, users: seq<UserRow>)
    requires retry < 3 <= |outcomes|
    requires !ix.users
    decreases 3 - retry
    ensures var t := Retry(outcomes, retry, ix, posts, users);
      t.usersCreated == if t.indexes.users then 1 else 0
  {
    var r := RunAttempt(outcomes[retry], ix, posts, users);
    if !r.ok && retry + 1 < 3 {
      if r.step.indexes.users {
        RetryKeepsIndexes(outcomes, retry + 1, r.step.indexes, posts, users);
      } else {
        RetryCreatesMissingUsers(outcomes, retry + 1, r.step.indexes, posts, users);
      }
    }
  }

  /** A run that gets through leaves both indexes in place. */
  lemma {:induction false} RetryReadyHasBoth(outcomes: seq<Attempt>, retry: nat, ix: Indexes, posts: seq<PostRow>, users: seq<UserRow>)
    requires retry < 3 <= |outcomes|
    decreases 3 - retry
    ensures var t := Retry(outcomes, retry, ix, posts, users);
      t.ready ==> t.indexes == Indexes(true, true)
  {
    var r := RunAttempt(outcomes[retry], ix, posts, users);
    if !r.ok && retry + 1 < 3 {
      RetryReadyHasBoth(outcomes, retry + 1, r.step.indexes, posts, users);
    }
  }

  /** The bulk requests of a run that gets through are those of its last attempt. */
  lemma {:induction false} RetryBulks(outcomes: seq<Attempt>, retry: nat, ix: Indexes, posts: seq<PostRow>, users: seq<UserRow>)
    requires retry < 3 <= |outcomes|
    decreases 3 - retry
    ensures var t := Retry(outcomes, retry, ix, posts, users);
      t.ready ==> t.bulks == AttemptBulks(outcomes[t.attempts - 1], posts, users)
  {
    var r := RunAttempt(outcomes[retry], ix, posts, users);
    if !r.ok && retry + 1 < 3 {
      RetryBulks(outcomes, retry + 1, r.step.indexes, posts, users);
      var rest := Retry(outcomes, retry + 1, r.step.indexes, posts, users);
      var t := Retry(outcomes, retry, ix, posts, users);
      assert t.ready == rest.ready && t.attempts == rest.attempts && t.bulks == rest.bulks;
    }
  }

  /**
   * The bootstrap as a whole, from index state `ix`. It returns in every
   * case, never throwing: ready after the first attempt that gets through, or
   * given up after the third failure.
   */
  function SetupSearch(outcomes: seq<Attempt>, ix: Indexes, posts: seq<PostRow>, users: seq<UserRow>): (t: Trace)
    requires |outcomes| >= 3
    ensures 1 <= t.attempts <= 3
    ensures !t.ready ==> t.attempts == 3 && t.bulks == []
    ensures RunAttempt(outcomes[0], ix, posts, users).ok ==> t.ready && t.attempts == 1 && t.waits == []
    ensures t.ready ==> var a := outcomes[t.attempts - 1]; a.pingOk && a.existsOk && a.readOk
    ensures (forall i :: 0 <= i < 3 ==> !outcomes[i].readOk) ==> !t.ready && t.bulks == []
  {
    Retry(outcomes, 0, ix, posts, users)
  }

  /**
   * A run that gets through loads the records once, with the bulk answers of
   * its last attempt: the post sync, then the user sync. With users to load,
   * the last request is the users' request carrying every user in order,
   * whatever became of the post sync.
   */
  lemma ReadyRunSyncsLastAttempt(outcomes: seq<Attempt>, ix: Indexes, posts: seq<PostRow>, users: seq<UserRow>)
    requires |outcomes| >= 3
    ensures var t := SetupSearch(outcomes, ix, posts, users);
      && (t.ready ==> t.bulks == AttemptBulks(outcomes[t.attempts - 1], posts, users))
      && (t.ready && users != [] ==>
            && |t.bulks| >= 1
            && t.bulks[|t.bulks| - 1] == BulkCall(UsersIndex, UserOps(users), outcomes[t.attempts - 1].usersBulkOk))
  {
    RetryBulks(outcomes, 0, ix, posts, users);
  }

  /** The only waits are 1000 ms after the first failure and 2000 ms after the second; none follows the last attempt. */
  lemma WaitsAreOneThenTwoSeconds(outcomes: seq<Attempt>, ix: Indexes, posts: seq<PostRow>, users: seq<UserRow>)
    requires |outcomes| >= 3
    ensures var t := SetupSearch(outcomes, ix, posts, users);
      t.waits == [1000, 2000][..t.attempts - 1]
  {
    var r0 := RunAttempt(outcomes[0], ix, posts, users);
    assert BackoffMs(1) == 1000;
    if !r0.ok {
      var r1 := RunAttempt(outcomes[1], r0.step.indexes, posts, users);
      assert BackoffMs(2) == 2000;
    }
  }

  /**
   * An index is created only when it is missing, at most once per run, and
   * never dropped; the run that gets through leaves both in place. Run again
   * on a store that has both, the bootstrap creates nothing.
   */
  lemma CreatesOnlyMissingIndexes(outcomes: seq<Attempt>, ix: Indexes, posts: seq<PostRow>, users: seq<UserRow>)
    requires |outcomes| >= 3
    ensures var t := SetupSearch(outcomes, ix, posts, users);
      && t.postsCreated == (if !ix.posts && t.indexes.posts then 1 else 0)
      && t.usersCreated == (if !ix.users && t.indexes.users then 1 else 0)
      && (ix.posts ==> t.indexes.posts) && (ix.users ==> t.indexes.users)
      && (t.ready ==> t.indexes == Indexes(true, true))
      && (ix == Indexes(true, true) ==> t.postsCreated == 0 && t.usersCreated == 0)
  {
    RetryKeepsIndexes(outcomes, 0, ix, posts, users);
    RetryReadyHasBoth(outcomes, 0, ix, posts, users);
    if !ix.posts {
      RetryCreatesMissingPosts(outcomes, 0, ix, posts, users);
    }
    if !ix.users {
      RetryCreatesMissingUsers(outcomes, 0, ix, posts, users);
    }
  }

  /** A ping that fails on every attempt: three attempts, both waits, nothing created or loaded, not ready. */
  lemma {:induction false} PingDownGivesUp(outcomes: seq<Attempt>, ix: Indexes, posts: seq<PostRow>, users: seq<UserRow>)
    requires |outcomes| >= 3
    requires forall i :: 0 <= i < 3 ==> !outcomes[i].pingOk
    ensures SetupSearch(outcomes, ix, posts, users) == Trace(3, [1000, 2000], 0, 0, [], ix, false)
  {
    assert Retry(outcomes, 2, ix, posts, users) == Trace(3, [], 0, 0, [], ix, false);
    assert Retry(outcomes, 1, ix, posts, users) == Trace(3, [2000], 0, 0, [], ix, false) by {
      assert BackoffMs(2) == 2000;
    }
    assert BackoffMs(1) == 1000;
  }

  /** Two attempts that behave alike up to the answers to their bulk requests. */
  predicate SameUpToBulk(a: Attempt, b: Attempt)
  {
    a.(postsBulkOk := b.postsBulkOk, usersBulkOk := b.usersBulkOk) == b
  }

  /** The bulk answers of an attempt steer nothing in it but the answers recorded with its bulk requests. */
  lemma AttemptIgnoresBulkAnswers(a: Attempt, b: Attempt, ix: Indexes, posts: seq<PostRow>, users: seq<UserRow>)
    requires SameUpToBulk(a, b)
    ensures var r, q := RunAttempt(a, ix, posts, users), RunAttempt(b, ix, posts, users);
      r.ok == q.ok && r.step == q.step
  {
    assert a.pingOk == b.pingOk && a.existsOk == b.existsOk && a.readOk == b.readOk;
    assert a.createPostsOk == b.createPostsOk && a.createUsersOk == b.createUsersOk;
  }

  /** How the index store answers the bulk requests steers neither the attempts, the waits, the indexes nor readiness. */
  lemma {:induction false} RetryIgnoresBulkAnswers(outcomes: seq<Attempt>, others: seq<Attempt>, retry: nat, ix: Indexes, posts: seq<PostRow>, users: seq<UserRow>)
    requires retry < 3 <= |outcomes| && |others| == |outcomes|
    requires forall i :: 0 <= i < |outcomes| ==> SameUpToBulk(outcomes[i], others[i])
    decreases 3 - retry
    ensures var t, u := Retry(outcomes, retry, ix, posts, users), Retry(others, retry, ix, posts, users);
      t.attempts == u.attempts && t.waits == u.waits && t.ready == u.ready && t.indexes == u.indexes
  {
    AttemptIgnoresBulkAnswers(outcomes[retry], others[retry], ix, posts, users);
    var r := RunAttempt(outcomes[retry], ix, posts, users);
    if !r.ok && retry + 1 < 3 {
      RetryIgnoresBulkAnswers(outcomes, others, retry + 1, r.step.indexes, posts, users);
    }
  }

  /**
   * A rejected bulk request is only logged: how the index store answers the
   * bulk requests changes neither the number of attempts, the waits, the
   * indexes created nor whether the bootstrap ends ready.
   */
  lemma BulkAnswersDoNotSteer(outcomes: seq<Attempt>, others: seq<Attempt>, ix: Indexes, posts: seq<PostRow>, users: seq<UserRow>)
    requires 3 <= |outcomes| && |others| == |outcomes|
    requires forall i :: 0 <= i < |outcomes| ==> SameUpToBulk(outcomes[i], others[i])
    ensures var t, u := SetupSearch(outcomes, ix, posts, users), SetupSearch(others, ix, posts, users);
      && t.attempts == u.attempts && t.waits == u.waits && t.ready == u.ready && t.indexes == u.indexes
      && t.postsCreated == u.postsCreated && t.usersCreated == u.usersCreated
  {
    RetryIgnoresBulkAnswers(outcomes, others, 0, ix, posts, users);
    CreatesOnlyMissingIndexes(outcomes, ix, posts, users);
    CreatesOnlyMissingIndexes(others, ix, posts, users);
  }
}
