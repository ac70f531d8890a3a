/**
 The request handlers of the forum over an in-memory store.  Each table is a
 map from primary key to row; a handler that succeeds changes the tables the
 way its database session would once committed, and a handler that refuses a
 request leaves the store as it was.  The logged-in user is passed in as
 `actor`, the username the session holds; the clock is passed in as `now`.
 */
module Forum {
  import opened Schema
  import Text
  import opened CommentTree

  /** The answer of the like toggle: the post's new counter and whether the
      user now likes the post. */
  datatype LikeReply = LikeReply(likes: int, liked: bool)

  /** `get_user_id`: the key of the user called `name`, if any. */
  function UserIdOf(users: map<nat, User>, name: string): (r: Option<nat>)
    requires UniqueUsernames(users)
    ensures r.Some? <==> UsernameTakenIn(users, name)
    ensures r.Some? ==> r.value in users && users[r.value].username == name
    ensures forall k :: k in users && users[k].username == name ==> r == Some(k)
  {
    if UsernameTakenIn(users, name) then
      var k :| k in users && users[k].username == name;
      Some(k)
    else
      None
  }

  /** `Like.query.filter_by(user_id=u, post_id=p).first()`. */
  function LikeOf(likes: map<nat, Like>, u: nat, p: nat): (r: Option<nat>)
    requires UniqueLikes(likes)
    ensures r.Some? <==> Like(u, p) in likes.Values
    ensures r.Some? ==> r.value in likes && likes[r.value] == Like(u, p)
    ensures forall k :: k in likes && likes[k] == Like(u, p) ==> r == Some(k)
  {
    if Like(u, p) in likes.Values then
      var k :| k in likes && likes[k] == Like(u, p);
      Some(k)
    else
      None
  }

  /** The likes table after toggling `like`: its row goes if it has one,
      otherwise a row with the unused key `key` is added. */
  function Toggled(likes: map<nat, Like>, key: nat, like: Like): (r: map<nat, Like>)
    requires UniqueLikes(likes) && key !in likes
    ensures UniqueLikes(r)
    ensures like in likes.Values ==> r.Values == likes.Values - {like}
    ensures like !in likes.Values ==> r.Values == likes.Values + {like}
  {
    match LikeOf(likes, like.userId, like.postId)
    case Some(k) =>
      ValuesRemove(likes, k);
      likes - {k}
    case None =>
      ValuesAdd(likes, key, like);
      var r := likes[key := like];
      assert forall a, b :: a in r && b in r && a != key && b != key && r[a] == r[b] ==> likes[a] == likes[b];
      r
  }

  /** The toggle moves the number of likes of the toggled post by one, down if
      the pair was liked and up otherwise, and leaves the likes of every other
      post as they were. */
  lemma ToggleCounts(likes: map<nat, Like>, key: nat, like: Like, q: nat)
    requires UniqueLikes(likes) && key !in likes
    ensures q != like.postId ==> LikesOn(Toggled(likes, key, like), q) == LikesOn(likes, q)
    ensures q == like.postId ==>
      |LikesOn(Toggled(likes, key, like), q)| == |LikesOn(likes, q)| + (if like in likes.Values then -1 else 1)
  {
    var k := LikeOf(likes, like.userId, like.postId);
    if k.Some? {
      LikesOnRemove(likes, k.value, q);
    } else {
      LikesOnAdd(likes, key, like, q);
    }
  }

  /** Toggling the same like twice gives back the same liked pairs and the
      same number of likes on every post; when the first toggle added the row,
      the second removes exactly that row. */
  lemma {:induction false} ToggleTwice(likes: map<nat, Like>, key1: nat, key2: nat, like: Like)
    requires UniqueLikes(likes) && key1 !in likes && key2 !in likes
    requires like !in likes.Values ==> key1 != key2
    ensures var once := Toggled(likes, key1, like);
      key2 !in once &&
      var twice := Toggled(once, key2, like);
      && twice.Values == likes.Values
      && (like !in likes.Values ==> twice == likes)
      && (forall p :: |LikesOn(twice, p)| == |LikesOn(likes, p)|)
  {
    var once := Toggled(likes, key1, like);
    var k := LikeOf(likes, like.userId, like.postId);
    if k.Some? {
      assert once == likes - {k.value};
      var twice := Toggled(once, key2, like);
      assert twice == once[key2 := like];
      forall p ensures |LikesOn(twice, p)| == |LikesOn(likes, p)| {
        LikesOnRemove(likes, k.value, p);
        LikesOnAdd(once, key2, like, p);
      }
    } else {
      assert once == likes[key1 := like];
      assert LikeOf(once, like.userId, like.postId) == Some(key1);
      assert Toggled(once, key2, like) == likes;
    }
  }

  /** The table after `db.session.delete` of comment `k` and the flush that
      follows: the row goes and its replies lose their parent. */
  function DropReply(comments: map<nat, Comment>, k: nat): (r: map<nat, Comment>)
    ensures r.Keys == comments.Keys - {k}
    ensures forall j :: j in r ==> r[j].postId == comments[j].postId
    ensures forall j :: j in r && comments[j].parentId != Some(k) ==> r[j] == comments[j]
    ensures forall j :: j in r && comments[j].parentId == Some(k) ==> r[j] == comments[j].(parentId := None)
    ensures forall j :: j in r ==> r[j].parentId != Some(k)
    ensures ThreadsWellFormed(comments) ==> ThreadsWellFormed(r)
  {
    map j | j in comments && j != k ::
      if comments[j].parentId == Some(k) then comments[j].(parentId := None) else comments[j]
  }

  /** What the reply loop of `delete_post` keeps while `pending` holds the
      comments it has still to visit: every row left is the row it started
      from, with the parent nulled exactly when that parent went; only replies
      go; and each visited reply whose parent was in post `p` went, or its
      parent did. */
  ghost predicate RepliesLoop(before: map<nat, Comment>, comments: map<nat, Comment>, pending: set<nat>, p: nat)
  {
    && ThreadsWellFormed(before)
    && pending <= comments.Keys <= before.Keys
    && (forall k :: k in pending ==> before[k].parentId.Some?)
    && (forall k :: k in comments ==>
          var c := before[k];
          comments[k] == if c.parentId.Some? && c.parentId.value !in comments then c.(parentId := None) else c)
    && (forall k :: k in before && before[k].postId != p ==> k in comments)
    && (forall k :: k in before && before[k].parentId.None? ==> k in comments)
    && (forall k :: k in before && before[k].parentId.Some? && k !in pending ==>
          var q := before[k].parentId.value;
          before[q].postId == p ==> k !in comments || q !in comments)
  }

  /** Deleting the visited reply `k`, whose parent is present and in post `p`,
      keeps the loop's invariant. */
  lemma DropReplyKeeps(before: map<nat, Comment>, comments: map<nat, Comment>, pending: set<nat>, p: nat, k: nat)
    requires RepliesLoop(before, comments, pending, p)
    requires k in pending
    requires comments[k].parentId.Some? && comments[k].parentId.value in comments
    requires comments[comments[k].parentId.value].postId == p
    ensures RepliesLoop(before, DropReply(comments, k), pending - {k}, p)
  {
    var after := DropReply(comments, k);
    assert before[k].postId == p;
    forall j | j in after
      ensures var c := before[j];
        after[j] == if c.parentId.Some? && c.parentId.value !in after then c.(parentId := None) else c
    {
      var c := before[j];
      if c.parentId == Some(k) {
        assert comments[j] == c;
      }
    }
  }

  /** Passing over the visited reply `k` without deleting it keeps the loop's
      invariant. */
  lemma SkipReplyKeeps(before: map<nat, Comment>, comments: map<nat, Comment>, pending: set<nat>, p: nat, k: nat)
    requires RepliesLoop(before, comments, pending, p)
    requires k in pending
    requires !(comments[k].parentId.Some? && comments[k].parentId.value in comments
               && comments[comments[k].parentId.value].postId == p)
    ensures RepliesLoop(before, comments, pending - {k}, p)
  {
  }

  class Store {
    var users: map<nat, User>
    var posts: map<nat, Post>
    var comments: map<nat, Comment>
    var likes: map<nat, Like>
    // the next primary key of each table
    var nextUser: nat
    var nextPost: nat
    var nextComment: nat
    var nextLike: nat

    /** The integrity of the store between requests. */
    ghost predicate Valid()
      reads this
    {
      Consistent(users, posts, comments, likes, nextUser, nextPost, nextComment, nextLike)
    }

    /** `db.create_all()` on an empty database. */
    constructor ()
      ensures Valid()
      ensures users == map[] && posts == map[] && comments == map[] && likes == map[]
    {
      users, posts, comments, likes := map[], map[], map[], map[];
      nextUser, nextPost, nextComment, nextLike := 1, 1, 1, 1;
    }

    /** `register`: both fields are stripped; an empty one, or a username
        already in use, is refused; otherwise exactly one user is added. */
    method Register(username: string, password: string) returns (r: Result<nat>)
      requires Valid()
      modifies this`users, this`nextUser
      ensures Valid()
      ensures var name, pw := Text.Strip(username), Text.Strip(password);
        if name == [] || pw == [] then
          r == Err(EmptyField) && unchanged(this)
        else if UsernameTakenIn(old(users), name) then
          r == Err(UsernameTaken) && unchanged(this)
        else
          && r == Ok(old(nextUser)) && r.value !in old(users)
          && users == old(users)[r.value := User(name, pw)]
          && nextUser == old(nextUser) + 1
    {
      var name := Text.Strip(username);
      var pw := Text.Strip(password);
      if name == [] || pw == [] {
        return Err(EmptyField);
      }
      if UserIdOf(users, name).Some? {
        return Err(UsernameTaken);
      }
      var id := nextUser;
      AddUserConsistent(users, posts, comments, likes, nextUser, nextPost, nextComment, nextLike, User(name, pw));
      users := users[id := User(name, pw)];
      nextUser := nextUser + 1;
      r := Ok(id);
    }

    /** `create_post`: title and content are stripped; an empty one is
        refused; otherwise one post with no likes is added. */
    method CreatePost(actor: string, title: string, content: string, now: int) returns (r: Result<nat>)
      requires Valid()
      modifies this`posts, this`nextPost
      ensures Valid()
      ensures var t, c := Text.Strip(title), Text.Strip(content);
        if t == [] || c == [] then
          r == Err(EmptyField) && unchanged(this)
        else
          && r == Ok(old(nextPost)) && r.value !in old(posts)
          && posts == old(posts)[r.value := Post(t, c, actor, now, 0)]
          && nextPost == old(nextPost) + 1
    {
      var t := Text.Strip(title);
      var c := Text.Strip(content);
      if t == [] || c == [] {
        return Err(EmptyField);
      }
      var id := nextPost;
      AddPostConsistent(users, posts, comments, likes, nextUser, nextPost, nextComment, nextLike, Post(t, c, actor, now, 0));
      posts := posts[id := Post(t, c, actor, now, 0)];
      nextPost := nextPost + 1;
      r := Ok(id);
    }

    /** `add_comment`: empty content is refused before the post is looked up;
        a parent that is missing or belongs to another post is refused;
        otherwise one comment is added to the post. */
    method AddComment(actor: string, postId: nat, content: string, parentId: Option<nat>, now: int)
      returns (r: Result<nat>)
      requires Valid()
      modifies this`comments, this`nextComment
      ensures Valid()
      ensures var text := Text.Strip(content);
        if text == [] then
          r == Err(EmptyContent) && unchanged(this)
        else if postId !in old(posts) then
          r == Err(PostNotFound) && unchanged(this)
        else if parentId.Some? && (parentId.value !in old(comments) || old(comments)[parentId.value].postId != postId) then
          r == Err(InvalidParent) && unchanged(this)
        else
          && r == Ok(old(nextComment)) && r.value !in old(comments)
          && comments == old(comments)[r.value := Comment(text, actor, postId, parentId, now)]
          && nextComment == old(nextComment) + 1
    {
      var text := Text.Strip(content);
      if text == [] {
        return Err(EmptyContent);
      }
      if postId !in posts {
        return Err(PostNotFound);
      }
      if parentId.Some? {
        if parentId.value !in comments || comments[parentId.value].postId != postId {
          return Err(InvalidParent);
        }
      }
      var id := nextComment;
      AddCommentConsistent(users, posts, comments, likes, nextUser, nextPost, nextComment, nextLike,
                           Comment(text, actor, postId, parentId, now));
      comments := comments[id := Comment(text, actor, postId, parentId, now)];
      nextComment := nextComment + 1;
      r := Ok(id);
    }

    /** `like_post`: flips whether the session's user likes the post and moves
        the post's counter with it. */
    method LikePost(actor: string, postId: nat) returns (r: Result<LikeReply>)
      requires Valid()
      modifies this`likes, this`posts, this`nextLike
      ensures Valid()
      ensures UserIdOf(old(users), actor).None? ==> r == Err(UserNotFound) && unchanged(this)
      ensures UserIdOf(old(users), actor).Some? && postId !in old(posts) ==>
        r == Err(PostNotFound) && unchanged(this)
      ensures UserIdOf(old(users), actor).Some? && postId in old(posts) ==>
        var like := Like(UserIdOf(old(users), actor).value, postId);
        var had := like in old(likes).Values;
        && r == Ok(LikeReply(old(posts)[postId].likes + (if had then -1 else 1), !had))
        && likes == Toggled(old(likes), old(nextLike), like)
        && nextLike == (if had then old(nextLike) else old(nextLike) + 1)
        && posts == old(posts)[postId := old(posts)[postId].(likes := r.value.likes)]
      ensures r.Ok? ==> r.value.likes == |LikesOn(likes, postId)|
    {
      var uid := UserIdOf(users, actor);
      if uid.None? {
        return Err(UserNotFound);
      }
      if postId !in posts {
        return Err(PostNotFound);
      }
      var post := posts[postId];
      var existing := LikeOf(likes, uid.value, postId);
      var liked: bool;
      if existing.Some? {
        var k := existing.value;
        ValuesRemove(likes, k);
        RemoveLikeConsistent(users, posts, comments, likes, nextUser, nextPost, nextComment, nextLike, k);
        likes := likes - {k};
        post := post.(likes := post.likes - 1);
        liked := false;
      } else {
        var like := Like(uid.value, postId);
        ValuesAdd(likes, nextLike, like);
        AddLikeConsistent(users, posts, comments, likes, nextUser, nextPost, nextComment, nextLike, like);
        likes := likes[nextLike := like];
        nextLike := nextLike + 1;
        post := post.(likes := post.likes + 1);
        liked := true;
      }
      posts := posts[postId := post];
      r := Ok(LikeReply(post.likes, liked));
    }

    /** `delete_post`: only the author may delete; the post's likes, the
        replies to its comments, its comments and the post itself go. */
    method DeletePost(actor: string, postId: nat) returns (r: Result<()>)
      requires Valid()
      modifies this`posts, this`likes, this`comments
      ensures Valid()
      ensures postId !in old(posts) ==> r == Err(PostNotFound) && unchanged(this)
      ensures postId in old(posts) && old(posts)[postId].author != actor ==>
        r == Err(Forbidden) && unchanged(this)
      ensures postId in old(posts) && old(posts)[postId].author == actor ==>
        && r == Ok(())
        && posts == old(posts) - {postId}
        && likes == LikesWithout(old(likes), postId)
        && comments == CommentsWithout(old(comments), postId)
      ensures r.Ok? ==>
        && postId !in posts
        && (forall k :: k in likes ==> likes[k].postId != postId)
        && (forall k :: k in comments ==> comments[k].postId != postId)
    {
      if postId !in posts {
        return Err(PostNotFound);
      }
      if posts[postId].author != actor {
        return Err(Forbidden);
      }
      DeletePostConsistent(users, posts, comments, likes, nextUser, nextPost, nextComment, nextLike, postId);
      likes := LikesWithout(likes, postId);

      ghost var before := comments;
      DeleteRepliesIn(postId);
      CommentsWithoutAgree(before, comments, postId);
      comments := CommentsWithout(comments, postId);
      posts := posts - {postId};
      r := Ok(());
    }

    /** The loop of `delete_post` over every comment that has a parent: a
        comment is deleted when its parent, looked up in the table as it is at
        that moment, belongs to post `postId`.  The comments are visited in an
        order the database chooses.  The `replies` relationship has no delete
        cascade, so deleting a comment sets the parent of each of its
        remaining replies to null (`DropReply`), and the loop sees those nulls
        when it reaches them.  Only comments of post `postId` are deleted or
        changed, because a reply always belongs to its parent's post. */
    method DeleteRepliesIn(postId: nat)
      requires ThreadsWellFormed(comments)
      modifies this`comments
      ensures comments.Keys <= old(comments).Keys
      ensures forall k :: k in comments ==>
        var c := old(comments)[k];
        comments[k] == if c.parentId.Some? && c.parentId.value !in comments then c.(parentId := None) else c
      ensures forall k :: k in old(comments) && old(comments)[k].postId != postId ==>
        k in comments && comments[k] == old(comments)[k]
      ensures forall k :: k in old(comments) && old(comments)[k].parentId.None? ==> k in comments
      ensures forall k :: k in old(comments) && old(comments)[k].parentId.Some? ==>
        var q := old(comments)[k].parentId.value;
        old(comments)[q].postId == postId ==> k !in comments || q !in comments
      ensures forall k :: k in old(comments) && old(comments)[k].parentId.Some? ==>
        var q := old(comments)[k].parentId.value;
        old(comments)[q].postId == postId && old(comments)[q].parentId.None? ==> k !in comments
    {
      ghost var before := comments;
      var pending := set k | k in comments && comments[k].parentId.Some?;
      assert forall k :: k in before && before[k].parentId.Some? ==> k in pending;
      while pending != {}
        invariant RepliesLoop(before, comments, pending, postId)
        decreases pending
      {
        var k :| k in pending;
        var c := comments[k];
        if c.parentId.Some? && c.parentId.value in comments && comments[c.parentId.value].postId == postId {
          DropReplyKeeps(before, comments, pending, postId, k);
          comments := DropReply(comments, k);
        } else {
          SkipReplyKeeps(before, comments, pending, postId, k);
        }
        pending := pending - {k};
      }
    }

    /** `view_post`: the comment forest of an existing post.  Its roots are the
        post's comments without a parent and every node's replies are the
        comments whose parent it is, each level earliest first; read in
        display order it lists every comment of the post exactly once, each
        reply after its parent. */
    method ViewPost(postId: nat) returns (r: Result<seq<Node>>)
      requires Valid()
      ensures r.Err? <==> postId !in posts
      ensures r.Err? ==> r.error == PostNotFound
      ensures r.Ok? ==> IsLevel(comments, r.value, RootSet(comments, postId))
      ensures r.Ok? ==> forall i :: 0 <= i < |r.value| ==> Shaped(comments, r.value[i])
      ensures r.Ok? ==> var s := Flatten(r.value);
        && (forall k :: k in s <==> k in comments && comments[k].postId == postId)
        && NoDuplicates(s)
        && (forall j :: 0 <= j < |s| && comments[s[j]].parentId.Some? ==>
              exists i :: 0 <= i < j && s[i] == comments[s[j]].parentId.value)
    {
      if postId !in posts {
        return Err(PostNotFound);
      }
      ForestShaped(comments, postId);
      ForestFlattenExact(comments, postId);
      r := Ok(Forest(comments, postId));
    }
  }
}
