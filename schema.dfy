/**
 The four tables of the forum (`User`, `Post`, `Comment`, `Like`) as rows keyed
 by their integer primary key, and the integrity conditions the request
 handlers keep between requests.
 */
module Schema {

  datatype Option<+T> = None | Some(value: T)

  /** What a handler answers instead of a result. */
  datatype Error =
    | EmptyField      // a required form field is empty after stripping
    | UsernameTaken   // registration under an existing username
    | EmptyContent    // a comment whose text is empty after stripping
    | PostNotFound    // `get_or_404` on a missing post
    | InvalidParent   // reply to a missing comment or to a comment of another post
    | UserNotFound    // the session's username has no `User` row
    | Forbidden       // deleting a post one did not write

  datatype Result<+T> = Ok(value: T) | Err(error: Error)

  /** The password column holds what the registration form sent, stripped. */
  datatype User = User(username: string, password: string)

  /** `author` is a username, not a reference to a `User` row; `likes` is the
      denormalised like counter. */
  datatype Post = Post(title: string, content: string, author: string, createdAt: int, likes: int)

  /** A top-level comment has `parentId == None`. */
  datatype Comment = Comment(content: string, author: string, postId: nat, parentId: Option<nat>, createdAt: int)

  datatype Like = Like(userId: nat, postId: nat)

  /** Every key of a table is positive and below the next key to hand out. */
  predicate KeysBelow<T>(table: map<nat, T>, next: nat)
  {
    0 < next && forall k :: k in table ==> 0 < k < next
  }

  /** `username` is declared `unique=True`. */
  predicate UniqueUsernames(users: map<nat, User>)
  {
    forall a, b :: a in users && b in users && users[a].username == users[b].username ==> a == b
  }

  predicate UsernameTakenIn(users: map<nat, User>, name: string)
  {
    exists k :: k in users && users[k].username == name
  }

  /** `UniqueConstraint('user_id', 'post_id')`: at most one row per pair. */
  predicate UniqueLikes(likes: map<nat, Like>)
  {
    forall a, b :: a in likes && b in likes && likes[a] == likes[b] ==> a == b
  }

  /** The rows that like post `p`. */
  function LikesOn(likes: map<nat, Like>, p: nat): (ks: set<nat>)
    ensures forall k :: k in ks <==> k in likes && likes[k].postId == p
  {
    set k | k in likes && likes[k].postId == p
  }

  /** `Post.likes` equals the number of `Like` rows of that post. */
  predicate CountersMatch(posts: map<nat, Post>, likes: map<nat, Like>)
  {
    forall p :: p in posts ==> posts[p].likes == |LikesOn(likes, p)|
  }

  /** Foreign keys of `Like`. */
  predicate LikesReference(likes: map<nat, Like>, users: map<nat, User>, posts: map<nat, Post>)
  {
    forall k :: k in likes ==> likes[k].userId in users && likes[k].postId in posts
  }

  /** Foreign key `post_id` of `Comment`. */
  predicate CommentsOnPosts(comments: map<nat, Comment>, posts: map<nat, Post>)
  {
    forall k :: k in comments ==> comments[k].postId in posts
  }

  /** A reply's parent exists, was created before it (smaller key) and belongs to
      the same post: every comment tree stays inside one post. */
  predicate ThreadsWellFormed(comments: map<nat, Comment>)
  {
    forall k :: k in comments && comments[k].parentId.Some? ==>
      var q := comments[k].parentId.value;
      q in comments && q < k && comments[q].postId == comments[k].postId
  }

  /** The integrity of the tables between requests: keys below the next key of
      their table, unique usernames, comments on existing posts in well-formed
      threads, at most one like per pair, likes on existing users and posts, and
      every post's counter equal to its number of likes. */
  predicate Consistent(users: map<nat, User>, posts: map<nat, Post>, comments: map<nat, Comment>,
                       likes: map<nat, Like>, nextUser: nat, nextPost: nat, nextComment: nat, nextLike: nat)
  {
    && KeysBelow(users, nextUser) && KeysBelow(posts, nextPost)
    && KeysBelow(comments, nextComment) && KeysBelow(likes, nextLike)
    && UniqueUsernames(users)
    && CommentsOnPosts(comments, posts) && ThreadsWellFormed(comments)
    && UniqueLikes(likes) && LikesReference(likes, users, posts)
    && CountersMatch(posts, likes)
  }

  /** The table of likes without the rows of post `p` (`Like.query.filter_by(post_id=p).delete()`). */
  function LikesWithout(likes: map<nat, Like>, p: nat): (r: map<nat, Like>)
    ensures forall k :: k in r <==> k in likes && likes[k].postId != p
    ensures forall k :: k in r ==> r[k] == likes[k]
    ensures LikesOn(r, p) == {}
    ensures forall q :: q != p ==> LikesOn(r, q) == LikesOn(likes, q)
    ensures UniqueLikes(likes) ==> UniqueLikes(r)
  {
    map k | k in likes && likes[k].postId != p :: likes[k]
  }

  /** The table of comments without the rows of post `p`. */
  function CommentsWithout(comments: map<nat, Comment>, p: nat): (r: map<nat, Comment>)
    ensures forall k :: k in r <==> k in comments && comments[k].postId != p
    ensures forall k :: k in r ==> r[k] == comments[k]
    ensures forall k :: k in r ==> r[k].postId != p
    ensures ThreadsWellFormed(comments) ==> ThreadsWellFormed(r)
  {
    map k | k in comments && comments[k].postId != p :: comments[k]
  }

  /** Removing the row `k` lowers the count of its post by one and leaves the
      count of every other post alone. */
  lemma LikesOnRemove(likes: map<nat, Like>, k: nat, p: nat)
    requires k in likes
    ensures likes[k].postId == p ==> |LikesOn(likes - {k}, p)| == |LikesOn(likes, p)| - 1
    ensures likes[k].postId != p ==> LikesOn(likes - {k}, p) == LikesOn(likes, p)
  {
    if likes[k].postId == p {
      assert LikesOn(likes - {k}, p) == LikesOn(likes, p) - {k};
    }
  }

  /** Adding a fresh row `k` raises the count of its post by one and leaves the
      count of every other post alone. */
  lemma LikesOnAdd(likes: map<nat, Like>, k: nat, l: Like, p: nat)
    requires k !in likes
    ensures l.postId == p ==> |LikesOn(likes[k := l], p)| == |LikesOn(likes, p)| + 1
    ensures l.postId != p ==> LikesOn(likes[k := l], p) == LikesOn(likes, p)
  {
    if l.postId == p {
      assert LikesOn(likes[k := l], p) == LikesOn(likes, p) + {k};
    }
  }

  /** With at most one row per pair, the set of liked pairs loses exactly the
      pair of the removed row. */
  lemma ValuesRemove(likes: map<nat, Like>, k: nat)
    requires UniqueLikes(likes) && k in likes
    ensures (likes - {k}).Values == likes.Values - {likes[k]}
  {
    forall l | l in likes.Values - {likes[k]} ensures l in (likes - {k}).Values {
      var j :| j in likes && likes[j] == l;
      assert j != k && (likes - {k})[j] == l;
    }
  }

  lemma ValuesAdd(likes: map<nat, Like>, k: nat, l: Like)
    requires k !in likes
    ensures likes[k := l].Values == likes.Values + {l}
  {
    forall v | v in likes.Values ensures v in likes[k := l].Values {
      var j :| j in likes && likes[j] == v;
      assert j != k && likes[k := l][j] == v;
    }
    assert likes[k := l][k] == l;
    forall v | v in likes[k := l].Values ensures v in likes.Values + {l} {
      var j :| j in likes[k := l] && likes[k := l][j] == v;
      if j != k { assert likes[j] == v; }
    }
  }

  // ---------------------------------------------------------------------------
  // Every change a handler commits keeps the tables consistent.

  /** `register`: a user under a fresh name. */
  lemma AddUserConsistent(users: map<nat, User>, posts: map<nat, Post>, comments: map<nat, Comment>,
                          likes: map<nat, Like>, nu: nat, np: nat, nc: nat, nl: nat, u: User)
    requires Consistent(users, posts, comments, likes, nu, np, nc, nl)
    requires !UsernameTakenIn(users, u.username)
    ensures Consistent(users[nu := u], posts, comments, likes, nu + 1, np, nc, nl)
  {
  }

  /** `create_post`: a post with a zero counter. */
  lemma AddPostConsistent(users: map<nat, User>, posts: map<nat, Post>, comments: map<nat, Comment>,
                          likes: map<nat, Like>, nu: nat, np: nat, nc: nat, nl: nat, post: Post)
    requires Consistent(users, posts, comments, likes, nu, np, nc, nl)
    requires post.likes == 0
    ensures Consistent(users, posts[np := post], comments, likes, nu, np + 1, nc, nl)
  {
    assert LikesOn(likes, np) == {};
  }

  /** `add_comment`: a comment on an existing post whose parent, if any, is a
      comment of the same post. */
  lemma AddCommentConsistent(users: map<nat, User>, posts: map<nat, Post>, comments: map<nat, Comment>,
                             likes: map<nat, Like>, nu: nat, np: nat, nc: nat, nl: nat, c: Comment)
    requires Consistent(users, posts, comments, likes, nu, np, nc, nl)
    requires c.postId in posts
    requires c.parentId.Some? ==> c.parentId.value in comments && comments[c.parentId.value].postId == c.postId
    ensures Consistent(users, posts, comments[nc := c], likes, nu, np, nc + 1, nl)
  {
  }

  /** `like_post`, removing branch: the row goes and its post's counter drops by one. */
  lemma RemoveLikeConsistent(users: map<nat, User>, posts: map<nat, Post>, comments: map<nat, Comment>,
                             likes: map<nat, Like>, nu: nat, np: nat, nc: nat, nl: nat, k: nat)
    requires Consistent(users, posts, comments, likes, nu, np, nc, nl)
    requires k in likes
    ensures var p := likes[k].postId;
      Consistent(users, posts[p := posts[p].(likes := posts[p].likes - 1)], comments, likes - {k}, nu, np, nc, nl)
  {
    var p := likes[k].postId;
    forall q | q in posts {
      LikesOnRemove(likes, k, q);
    }
  }

  /** `like_post`, adding branch: a row for a pair not liked yet, and its post's
      counter rises by one. */
  lemma AddLikeConsistent(users: map<nat, User>, posts: map<nat, Post>, comments: map<nat, Comment>,
                          likes: map<nat, Like>, nu: nat, np: nat, nc: nat, nl: nat, l: Like)
    requires Consistent(users, posts, comments, likes, nu, np, nc, nl)
    requires l.userId in users && l.postId in posts && l !in likes.Values
    ensures var p := l.postId;
      Consistent(users, posts[p := posts[p].(likes := posts[p].likes + 1)], comments, likes[nl := l], nu, np, nc, nl + 1)
  {
    forall q | q in posts {
      LikesOnAdd(likes, nl, l, q);
    }
    var likes' := likes[nl := l];
    forall a, b | a in likes' && b in likes' && likes'[a] == likes'[b] ensures a == b {
      if a != nl && b != nl {
        assert likes[a] == likes[b];
      }
    }
  }

  /** `delete_post`: without the post, its likes and its comments, the tables
      are consistent again; no reply is left whose parent went. */
  lemma DeletePostConsistent(users: map<nat, User>, posts: map<nat, Post>, comments: map<nat, Comment>,
                             likes: map<nat, Like>, nu: nat, np: nat, nc: nat, nl: nat, p: nat)
    requires Consistent(users, posts, comments, likes, nu, np, nc, nl)
    ensures Consistent(users, posts - {p}, CommentsWithout(comments, p), LikesWithout(likes, p), nu, np, nc, nl)
  {
  }

  /** Two comment tables that differ only in rows of post `p` (some of them
      gone, some of them changed) lose the same table once the rows of `p` go. */
  lemma CommentsWithoutAgree(before: map<nat, Comment>, after: map<nat, Comment>, p: nat)
    requires after.Keys <= before.Keys
    requires forall k :: k in after ==> after[k].postId == before[k].postId
    requires forall k :: k in before && before[k].postId != p ==> k in after && after[k] == before[k]
    ensures CommentsWithout(after, p) == CommentsWithout(before, p)
  {
    assert CommentsWithout(after, p).Keys == CommentsWithout(before, p).Keys;
  }
}
