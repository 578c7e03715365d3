/**
 * The database that `init()` in backend/init.go creates, as an abstract table
 * store. The UNIQUE constraints, the partial unique indexes, the primary keys and
 * the foreign keys of the schema become the invariant `Consistent`; an insert that
 * would break it fails and changes nothing, and a delete follows the ON DELETE
 * CASCADE clauses (and fails where a foreign key without an ON DELETE action
 * would be left dangling).
 */
module Database {
  import opened Base

  /** A row of `users` (the `id` is the key of the map that holds it). */
  datatype User = User(username: string, email: string, passwordHash: string, createdAt: int)

  /** A row of `sessions`. */
  datatype Session = Session(token: string, userId: int, expiresAt: int)

  /** A row of `posts` (the default timestamp columns are left out). */
  datatype Post = Post(userId: int, title: string, content: string)

  /** A row of `comments`. */
  datatype Comment = Comment(postId: int, userId: int, text: string)

  /** A row of `likes`: the target columns are nullable and `kind` is unchecked. */
  datatype Like = Like(userId: int, postId: Option<int>, commentId: Option<int>, kind: int)

  /** A row of `comment_likes`. */
  datatype CommentLike = CommentLike(commentId: int, userId: int, value: int)

  /** A row of `post_categories`. */
  datatype PostCategory = PostCategory(postId: int, categoryId: int)

  /**
   * The contents of every table. Tables with an AUTOINCREMENT `id` that other rows
   * refer to are maps from id to row, each with the next id to hand out; `sessions`
   * and `comment_likes` are sets because their unique keys make every row distinct
   * and nothing reads their `id`. `categories` holds the ids of the category table,
   * which is created and filled outside this schema.
   */
  datatype Tables = Tables(
    users: map<int, User>, nextUserId: int,
    sessions: set<Session>,
    posts: map<int, Post>, nextPostId: int,
    comments: map<int, Comment>, nextCommentId: int,
    likes: map<int, Like>, nextLikeId: int,
    commentLikes: set<CommentLike>,
    postCategories: set<PostCategory>,
    categories: set<int>)

  /** AUTOINCREMENT: ids start at 1 and every id in use is below the next one handed out. */
  ghost predicate IdsBelow<T>(m: map<int, T>, next: int) {
    1 <= next && forall k :: k in m ==> 1 <= k < next
  }

  /** `username TEXT NOT NULL UNIQUE` and `email TEXT NOT NULL UNIQUE`. */
  ghost predicate UsersUnique(users: map<int, User>) {
    forall a, b :: a in users && b in users && a != b ==>
      users[a].username != users[b].username && users[a].email != users[b].email
  }

  /** `token TEXT NOT NULL UNIQUE` and the unique index `idx_sessions_user` on `user_id`. */
  ghost predicate SessionsUnique(sessions: set<Session>) {
    forall s, s' :: s in sessions && s' in sessions && s != s' ==>
      s.token != s'.token && s.userId != s'.userId
  }

  /**
   * The partial unique indexes of `likes`: one row per (user_id, post_id) where
   * post_id is set, one per (user_id, comment_id) where comment_id is set.
   */
  ghost predicate LikesUnique(likes: map<int, Like>) {
    forall a, b :: a in likes && b in likes && a != b && likes[a].userId == likes[b].userId ==>
      (likes[a].postId.Some? ==> likes[a].postId != likes[b].postId)
      && (likes[a].commentId.Some? ==> likes[a].commentId != likes[b].commentId)
  }

  /** Whether `like` would break one of the two partial unique indexes of `likes`. */
  predicate LikeClashes(likes: map<int, Like>, like: Like) {
    exists l :: l in likes && likes[l].userId == like.userId
                && ((like.postId.Some? && likes[l].postId == like.postId)
                    || (like.commentId.Some? && likes[l].commentId == like.commentId))
  }

  /** A like whose targets exist and that clashes with no other keeps the tables consistent. */
  lemma LikeAddedConsistent(t: Tables, like: Like)
    requires Consistent(t) && !LikeClashes(t.likes, like)
    requires like.userId in t.users
    requires like.postId.Some? ==> like.postId.value in t.posts
    requires like.commentId.Some? ==> like.commentId.value in t.comments
    ensures t.nextLikeId !in t.likes
    ensures Consistent(t.(likes := t.likes[t.nextLikeId := like], nextLikeId := t.nextLikeId + 1))
  {
    var t' := t.(likes := t.likes[t.nextLikeId := like], nextLikeId := t.nextLikeId + 1);
    assert LikesUnique(t'.likes);
    assert ReferencesHold(t');
  }

  /** `UNIQUE(comment_id, user_id)` of `comment_likes`. */
  ghost predicate CommentLikesUnique(rows: set<CommentLike>) {
    forall x, y :: x in rows && y in rows && x != y ==> x.commentId != y.commentId || x.userId != y.userId
  }

  /** Every foreign key of the schema points at an existing row. */
  ghost predicate ReferencesHold(t: Tables) {
    && (forall s :: s in t.sessions ==> s.userId in t.users)
    && (forall p :: p in t.posts ==> t.posts[p].userId in t.users)
    && (forall c :: c in t.comments ==> t.comments[c].postId in t.posts && t.comments[c].userId in t.users)
    && (forall l :: l in t.likes ==>
          && t.likes[l].userId in t.users
          && (t.likes[l].postId.Some? ==> t.likes[l].postId.value in t.posts)
          && (t.likes[l].commentId.Some? ==> t.likes[l].commentId.value in t.comments))
    && (forall pc :: pc in t.postCategories ==> pc.postId in t.posts && pc.categoryId in t.categories)
  }

  /** The invariant the schema imposes on the tables. */
  ghost predicate Consistent(t: Tables) {
    && IdsBelow(t.users, t.nextUserId) && IdsBelow(t.posts, t.nextPostId)
    && IdsBelow(t.comments, t.nextCommentId) && IdsBelow(t.likes, t.nextLikeId)
    && UsersUnique(t.users) && SessionsUnique(t.sessions)
    && LikesUnique(t.likes) && CommentLikesUnique(t.commentLikes)
    && ReferencesHold(t)
  }

  predicate EmailTaken(users: map<int, User>, email: string) {
    exists k :: k in users && users[k].email == email
  }

  predicate UsernameTaken(users: map<int, User>, username: string) {
    exists k :: k in users && users[k].username == username
  }

  /** The login query's condition: `email = ? OR username = ?` with the same argument twice. */
  predicate MatchesIdentifier(u: User, ident: string) {
    u.email == ident || u.username == ident
  }

  /** The sessions left after `DELETE FROM sessions WHERE user_id = ?`. */
  function SessionsWithout(sessions: set<Session>, userId: int): (r: set<Session>)
  {
    set s | s in sessions && s.userId != userId
  }

  // ---------------------------------------------------------------------------
  // Cascading deletes, as functions of the tables

  /** Likes that survive the removal of the posts `goneP` and the comments `goneC` (and of user `uid`). */
  function LikesKept(likes: map<int, Like>, uid: Option<int>, goneP: set<int>, goneC: set<int>): map<int, Like> {
    map l | l in likes
            && (uid.None? || likes[l].userId != uid.value)
            && (likes[l].postId.None? || likes[l].postId.value !in goneP)
            && (likes[l].commentId.None? || likes[l].commentId.value !in goneC)
      :: likes[l]
  }

  /** `DELETE FROM comments WHERE id = ?`: the comment goes, and with it its likes. */
  function DeleteCommentCascade(t: Tables, cid: int): Tables {
    t.(comments := t.comments - {cid},
       likes := LikesKept(t.likes, None, {}, {cid}))
  }

  /** The posts a user delete takes with it. */
  function PostsOf(posts: map<int, Post>, uid: int): set<int> {
    set p | p in posts && posts[p].userId == uid
  }

  /** The comments that go with user `uid` (as author) or with the posts `goneP`. */
  function CommentsGone(comments: map<int, Comment>, uid: Option<int>, goneP: set<int>): set<int> {
    set c | c in comments && ((uid.Some? && comments[c].userId == uid.value) || comments[c].postId in goneP)
  }

  /**
   * `post_categories.post_id` references `posts(id)` without an ON DELETE action,
   * so a statement that would remove a post still listed there fails as a whole.
   */
  predicate Categorised(pcs: set<PostCategory>, goneP: set<int>) {
    exists pc :: pc in pcs && pc.postId in goneP
  }

  /** `DELETE FROM posts WHERE id = ?`: the post, its comments, and the likes of both. */
  function DeletePostCascade(t: Tables, pid: int): Tables {
    var goneC := CommentsGone(t.comments, None, {pid});
    t.(posts := t.posts - {pid},
       comments := t.comments - goneC,
       likes := LikesKept(t.likes, None, {pid}, goneC))
  }

  /**
   * `DELETE FROM users WHERE id = ?`: the user's sessions, posts, comments and
   * likes go, and so do the comments on those posts and the likes on everything
   * removed. `comment_likes` declares no foreign key and is left alone.
   */
  function DeleteUserCascade(t: Tables, uid: int): Tables {
    var goneP := PostsOf(t.posts, uid);
    var goneC := CommentsGone(t.comments, Some(uid), goneP);
    t.(users := t.users - {uid},
       sessions := SessionsWithout(t.sessions, uid),
       posts := t.posts - goneP,
       comments := t.comments - goneC,
       likes := LikesKept(t.likes, Some(uid), goneP, goneC))
  }

  /** After a user delete nothing refers to the user, the schema still holds, and unrelated rows stay. */
  lemma DeleteUserCascadeSound(t: Tables, uid: int)
    requires Consistent(t) && !Categorised(t.postCategories, PostsOf(t.posts, uid))
    ensures var r := DeleteUserCascade(t, uid);
      && Consistent(r)
      && uid !in r.users
      && (forall s :: s in r.sessions ==> s.userId != uid)
      && (forall p :: p in r.posts ==> r.posts[p].userId != uid)
      && (forall c :: c in r.comments ==> r.comments[c].userId != uid)
      && (forall l :: l in r.likes ==> r.likes[l].userId != uid)
      && (forall s :: s in t.sessions && s.userId != uid ==> s in r.sessions)
      && (forall k :: k in t.users && k != uid ==> k in r.users && r.users[k] == t.users[k])
      && r.commentLikes == t.commentLikes && r.postCategories == t.postCategories
  {
    var r := DeleteUserCascade(t, uid);
    var goneP := PostsOf(t.posts, uid);
    var goneC := CommentsGone(t.comments, Some(uid), goneP);
    assert ReferencesHold(r) by {
      forall c | c in r.comments
        ensures r.comments[c].postId in r.posts && r.comments[c].userId in r.users
      {
        assert c !in goneC;
      }
      forall l | l in r.likes
        ensures r.likes[l].userId in r.users
        ensures r.likes[l].postId.Some? ==> r.likes[l].postId.value in r.posts
        ensures r.likes[l].commentId.Some? ==> r.likes[l].commentId.value in r.comments
      {
        assert l in t.likes && r.likes[l] == t.likes[l];
      }
      forall pc | pc in r.postCategories
        ensures pc.postId in r.posts
      {
        assert pc.postId !in goneP;
      }
    }
  }

  /** After a post delete its comments and likes are gone and the schema still holds. */
  lemma DeletePostCascadeSound(t: Tables, pid: int)
    requires Consistent(t) && !Categorised(t.postCategories, {pid})
    ensures var r := DeletePostCascade(t, pid);
      && Consistent(r)
      && pid !in r.posts
      && (forall c :: c in r.comments ==> r.comments[c].postId != pid)
      && (forall l :: l in r.likes ==> r.likes[l].postId != Some(pid))
      && (forall l :: l in r.likes && r.likes[l].commentId.Some? ==> r.likes[l].commentId.value in r.comments)
      && r.users == t.users && r.sessions == t.sessions && r.commentLikes == t.commentLikes
  {
    var r := DeletePostCascade(t, pid);
    var goneC := CommentsGone(t.comments, None, {pid});
    assert ReferencesHold(r) by {
      forall l | l in r.likes
        ensures r.likes[l].postId.Some? ==> r.likes[l].postId.value in r.posts
        ensures r.likes[l].commentId.Some? ==> r.likes[l].commentId.value in r.comments
      {
        assert l in t.likes && r.likes[l] == t.likes[l];
      }
    }
  }

  /** After a comment delete its likes are gone and the schema still holds. */
  lemma DeleteCommentCascadeSound(t: Tables, cid: int)
    requires Consistent(t)
    ensures var r := DeleteCommentCascade(t, cid);
      && Consistent(r)
      && cid !in r.comments
      && (forall l :: l in r.likes ==> r.likes[l].commentId != Some(cid))
      && (forall l :: l in t.likes && t.likes[l].commentId != Some(cid) ==> l in r.likes)
      && r.users == t.users && r.sessions == t.sessions && r.posts == t.posts
      && r.commentLikes == t.commentLikes
  {
    var r := DeleteCommentCascade(t, cid);
    assert ReferencesHold(r) by {
      forall l | l in r.likes
        ensures r.likes[l].commentId.Some? ==> r.likes[l].commentId.value in r.comments
      {
        assert l in t.likes && r.likes[l] == t.likes[l];
      }
    }
  }

  // ---------------------------------------------------------------------------
  // The store

  /** The database handle: one field per table, updated in place by each statement. */
  class Store {
    var users: map<int, User>
    var nextUserId: int
    var sessions: set<Session>
    var posts: map<int, Post>
    var nextPostId: int
    var comments: map<int, Comment>
    var nextCommentId: int
    var likes: map<int, Like>
    var nextLikeId: int
    var commentLikes: set<CommentLike>
    var postCategories: set<PostCategory>
    var categories: set<int>

    /** The contents of all tables. */
    function State(): Tables
      reads this
    {
      Tables(users, nextUserId, sessions, posts, nextPostId, comments, nextCommentId,
             likes, nextLikeId, commentLikes, postCategories, categories)
    }

    ghost predicate Valid()
      reads this
    {
      Consistent(State())
    }

    /** `init()` on a fresh database file: every table empty; `categories` as seeded. */
    constructor (categories: set<int>)
      ensures Valid()
      ensures State() == Tables(map[], 1, {}, map[], 1, map[], 1, map[], 1, {}, {}, categories)
    {
      users, nextUserId, sessions := map[], 1, {};
      posts, nextPostId, comments, nextCommentId := map[], 1, map[], 1;
      likes, nextLikeId, commentLikes, postCategories := map[], 1, {}, {};
      this.categories := categories;
    }

    /** Put back the tables as they were when a transaction began (`tx.Rollback`). */
    method Restore(saved: Tables)
      requires Consistent(saved)
      modifies this
      ensures State() == saved
      ensures Valid()
    {
      users, nextUserId, sessions := saved.users, saved.nextUserId, saved.sessions;
      posts, nextPostId, comments, nextCommentId := saved.posts, saved.nextPostId, saved.comments, saved.nextCommentId;
      likes, nextLikeId, commentLikes := saved.likes, saved.nextLikeId, saved.commentLikes;
      postCategories, categories := saved.postCategories, saved.categories;
    }

    /**
     * `SELECT COUNT(1) FROM users WHERE email = ?`. The UNIQUE constraint keeps the
     * count at 0 or 1; it is positive exactly when the email is in use.
     */
    method CountEmail(email: string) returns (n: int)
      requires Valid()
      ensures 0 <= n <= 1
      ensures n > 0 <==> EmailTaken(users, email)
    {
      var found := set k | k in users && users[k].email == email;
      if EmailTaken(users, email) {
        var k :| k in users && users[k].email == email;
        assert UsersUnique(State().users);
        assert k in found;
        assert forall j :: j in found ==> j == k;
        assert found == {k};
      } else {
        assert forall j :: j !in found;
        assert found == {};
      }
      n := |found|;
    }

    /** `SELECT COUNT(1) FROM users WHERE username = ?`; 0 or 1 by the UNIQUE constraint. */
    method CountUsername(username: string) returns (n: int)
      requires Valid()
      ensures 0 <= n <= 1
      ensures n > 0 <==> UsernameTaken(users, username)
    {
      var found := set k | k in users && users[k].username == username;
      if UsernameTaken(users, username) {
        var k :| k in users && users[k].username == username;
        assert UsersUnique(State().users);
        assert k in found;
        assert forall j :: j in found ==> j == k;
        assert found == {k};
      } else {
        assert forall j :: j !in found;
        assert found == {};
      }
      n := |found|;
    }

    /**
     * `SELECT id, password_hash FROM users WHERE email = ? OR username = ?` read with
     * `QueryRow`: no row, or the id of one of the matching users (the query has no
     * ORDER BY, so which one is left open).
     */
    method FindLoginUser(ident: string) returns (found: Option<int>)
      ensures found.None? <==> !exists k :: k in users && MatchesIdentifier(users[k], ident)
      ensures found.Some? ==> found.value in users && MatchesIdentifier(users[found.value], ident)
    {
      if exists k :: k in users && MatchesIdentifier(users[k], ident) {
        var k :| k in users && MatchesIdentifier(users[k], ident);
        found := Some(k);
      } else {
        found := None;
      }
    }

    /**
     * `INSERT INTO users`: fails and changes nothing when the username or the email
     * is taken; otherwise the new row gets the next AUTOINCREMENT id, which no
     * existing user has, and that id is what `LastInsertId` reports.
     */
    method InsertUser(username: string, email: string, passwordHash: string, createdAt: int)
      returns (ok: bool, id: int)
      requires Valid()
      modifies this
      ensures Valid()
      ensures ok <==> !UsernameTaken(old(users), username) && !EmailTaken(old(users), email)
      ensures ok ==> id == old(nextUserId) && id !in old(users) && id >= 1
      ensures ok ==> State() == old(State()).(users := old(users)[id := User(username, email, passwordHash, createdAt)],
                                              nextUserId := id + 1)
      ensures !ok ==> State() == old(State())
    {
      if UsernameTaken(users, username) || EmailTaken(users, email) {
        return false, 0;
      }
      ok, id := true, nextUserId;
      users := users[id := User(username, email, passwordHash, createdAt)];
      nextUserId := nextUserId + 1;
    }

    /**
     * `INSERT INTO sessions`: fails and changes nothing when the token is in use, the
     * user already has a session, or the user does not exist.
     */
    method InsertSession(token: string, userId: int, expiresAt: int) returns (ok: bool)
      requires Valid()
      modifies this
      ensures Valid()
      ensures ok <==> userId in old(users)
                      && (forall s :: s in old(sessions) ==> s.token != token && s.userId != userId)
      ensures ok ==> State() == old(State()).(sessions := old(sessions) + {Session(token, userId, expiresAt)})
      ensures !ok ==> State() == old(State())
    {
      if userId !in users || exists s :: s in sessions && (s.token == token || s.userId == userId) {
        return false;
      }
      sessions := sessions + {Session(token, userId, expiresAt)};
      ok := true;
    }

    /** `DELETE FROM sessions WHERE user_id = ?`: the user's sessions go, no other row changes. */
    method DeleteSessionsOf(userId: int)
      requires Valid()
      modifies this
      ensures Valid()
      ensures State() == old(State()).(sessions := SessionsWithout(old(sessions), userId))
      ensures forall s :: s in sessions ==> s.userId != userId
      ensures forall s :: s in old(sessions) && s.userId != userId ==> s in sessions
    {
      sessions := SessionsWithout(sessions, userId);
    }

    /** `INSERT INTO posts`: needs an existing author. */
    method InsertPost(userId: int, title: string, content: string) returns (ok: bool, id: int)
      requires Valid()
      modifies this
      ensures Valid()
      ensures ok <==> userId in old(users)
      ensures ok ==> id == old(nextPostId) && id !in old(posts)
                     && State() == old(State()).(posts := old(posts)[id := Post(userId, title, content)], nextPostId := id + 1)
      ensures !ok ==> State() == old(State())
    {
      if userId !in users {
        return false, 0;
      }
      ok, id := true, nextPostId;
      posts := posts[id := Post(userId, title, content)];
      nextPostId := nextPostId + 1;
    }

    /** `INSERT INTO comments`: needs an existing post and author. */
    method InsertComment(postId: int, userId: int, text: string) returns (ok: bool, id: int)
      requires Valid()
      modifies this
      ensures Valid()
      ensures ok <==> postId in old(posts) && userId in old(users)
      ensures ok ==> id == old(nextCommentId) && id !in old(comments)
                     && State() == old(State()).(comments := old(comments)[id := Comment(postId, userId, text)],
                                                 nextCommentId := id + 1)
      ensures !ok ==> State() == old(State())
    {
      if postId !in posts || userId !in users {
        return false, 0;
      }
      ok, id := true, nextCommentId;
      comments := comments[id := Comment(postId, userId, text)];
      nextCommentId := nextCommentId + 1;
    }

    /**
     * `INSERT INTO likes`: the user and any target given must exist, and the user
     * may not already have a row for the same post or the same comment. A row with
     * neither target is allowed, any number of times.
     */
    method InsertLike(userId: int, postId: Option<int>, commentId: Option<int>, kind: int)
      returns (ok: bool, id: int)
      requires Valid()
      modifies this
      ensures Valid()
      ensures ok <==> && userId in old(users)
                      && (postId.Some? ==> postId.value in old(posts))
                      && (commentId.Some? ==> commentId.value in old(comments))
                      && (forall l :: l in old(likes) && old(likes)[l].userId == userId ==>
                            (postId.Some? ==> old(likes)[l].postId != postId)
                            && (commentId.Some? ==> old(likes)[l].commentId != commentId))
      ensures ok ==> id == old(nextLikeId) && id !in old(likes)
                     && State() == old(State()).(likes := old(likes)[id := Like(userId, postId, commentId, kind)],
                                                 nextLikeId := id + 1)
      ensures !ok ==> State() == old(State())
    {
      var like := Like(userId, postId, commentId, kind);
      if || userId !in users
         || (postId.Some? && postId.value !in posts)
         || (commentId.Some? && commentId.value !in comments)
         || LikeClashes(likes, like)
      {
        return false, 0;
      }
      LikeAddedConsistent(State(), like);
      ok, id := true, nextLikeId;
      likes := likes[id := like];
      nextLikeId := nextLikeId + 1;
    }

    /**
     * `INSERT INTO comment_likes`: only the (comment_id, user_id) pair is constrained;
     * the table declares no foreign key, so the comment and user need not exist.
     */
    method InsertCommentLike(commentId: int, userId: int, value: int) returns (ok: bool)
      requires Valid()
      modifies this
      ensures Valid()
      ensures ok <==> forall x :: x in old(commentLikes) ==> x.commentId != commentId || x.userId != userId
      ensures ok ==> State() == old(State()).(commentLikes := old(commentLikes) + {CommentLike(commentId, userId, value)})
      ensures !ok ==> State() == old(State())
    {
      if exists x :: x in commentLikes && x.commentId == commentId && x.userId == userId {
        return false;
      }
      commentLikes := commentLikes + {CommentLike(commentId, userId, value)};
      ok := true;
    }

    /** `INSERT INTO post_categories`: the pair is the primary key; both ids must exist. */
    method InsertPostCategory(postId: int, categoryId: int) returns (ok: bool)
      requires Valid()
      modifies this
      ensures Valid()
      ensures ok <==> PostCategory(postId, categoryId) !in old(postCategories)
                      && postId in old(posts) && categoryId in old(categories)
      ensures ok ==> State() == old(State()).(postCategories := old(postCategories) + {PostCategory(postId, categoryId)})
      ensures !ok ==> State() == old(State())
    {
      if PostCategory(postId, categoryId) in postCategories || postId !in posts || categoryId !in categories {
        return false;
      }
      postCategories := postCategories + {PostCategory(postId, categoryId)};
      ok := true;
    }

    /** `DELETE FROM comments WHERE id = ?`, cascading to the comment's likes. */
    method DeleteComment(cid: int)
      requires Valid()
      modifies this
      ensures Valid()
      ensures State() == DeleteCommentCascade(old(State()), cid)
    {
      DeleteCommentCascadeSound(State(), cid);
      likes := LikesKept(likes, None, {}, {cid});
      comments := comments - {cid};
    }

    /** `DELETE FROM posts WHERE id = ?`, cascading; fails while a category row lists the post. */
    method DeletePost(pid: int) returns (ok: bool)
      requires Valid()
      modifies this
      ensures Valid()
      ensures ok <==> !Categorised(old(postCategories), {pid})
      ensures State() == if ok then DeletePostCascade(old(State()), pid) else old(State())
    {
      if Categorised(postCategories, {pid}) {
        return false;
      }
      DeletePostCascadeSound(State(), pid);
      var goneC := CommentsGone(comments, None, {pid});
      likes := LikesKept(likes, None, {pid}, goneC);
      comments := comments - goneC;
      posts := posts - {pid};
      ok := true;
    }

    /** `DELETE FROM users WHERE id = ?`, cascading; fails while a category row lists one of the user's posts. */
    method DeleteUser(uid: int) returns (ok: bool)
      requires Valid()
      modifies this
      ensures Valid()
      ensures ok <==> !Categorised(old(postCategories), PostsOf(old(posts), uid))
      ensures State() == if ok then DeleteUserCascade(old(State()), uid) else old(State())
    {
      var goneP := PostsOf(posts, uid);
      if Categorised(postCategories, goneP) {
        return false;
      }
      DeleteUserCascadeSound(State(), uid);
      var goneC := CommentsGone(comments, Some(uid), goneP);
      likes := LikesKept(likes, Some(uid), goneP, goneC);
      comments := comments - goneC;
      posts := posts - goneP;
      sessions := SessionsWithout(sessions, uid);
      users := users - {uid};
      ok := true;
    }
  }
}
