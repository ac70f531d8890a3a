# Forum store model

The project models the core of a small Flask/SQLAlchemy forum. Users register,
write posts, comment with nested replies and like posts. The database becomes
an in-memory store: one map per table (`User`, `Post`, `Comment`, `Like`) from
primary key to row, plus the next key each table hands out. Each request
handler is a method on the class `Forum.Store` that changes those maps the way
the handler's committed database session would.

Modules:

- `Text` (`text.dfy`): Python's `str.strip()`. The username, password, title
  and content fields go through it. The comment form's `parent_id` field does
  not: it is read and tested as sent.
- `Schema` (`schema.dfy`): the rows, the handlers' error answers and the
  integrity of the tables (`Consistent`):
  - keys stay below the next key;
  - usernames are unique;
  - there is at most one like per (user, post);
  - likes reference existing users and posts;
  - comments sit on existing posts;
  - every reply's parent exists, has a smaller key and belongs to the same post;
  - every post's `likes` counter equals its number of `Like` rows.

  One lemma per kind of change proves that the change keeps this integrity.
- `CommentTree` (`comment_tree.dfy`): the comment forest that `view_post`
  renders. A post's roots and a node's replies are each sorted by
  `created_at`. Flattening the forest lists every comment of the post once,
  with each reply after its parent.
- `Forum` (`forum.dfy`): the store and its handlers: `register`,
  `create_post`, `add_comment`, `like_post`, `delete_post` and `view_post`.
  It also holds the pure description of the like toggle (`Toggled`) and the
  lemmas about it.

The logged-in user is an explicit `actor` argument: the username the session
holds. The creation time is an explicit `now` argument.

## Model

| member | source | states |
|---|---|---|
| Text.Strip | shizofrenia.py:343-344 | the stripped field is no longer than the input, and neither starts nor ends with whitespace |
| Text.StripIsSlice | shizofrenia.py:343-344 | what `strip` keeps is a contiguous slice of the field, and everything it cut from either end is whitespace |
| Text.StripEmptyIff | shizofrenia.py:346-347 | a field is rejected as empty exactly when it holds only whitespace (both directions) |
| Schema.LikesWithout | shizofrenia.py:592 | after the bulk delete the post has no likes, every other post keeps exactly the likes it had, and at most one like per pair still holds |
| Schema.CommentsWithout | shizofrenia.py:602 | after the bulk delete no comment is on the post, the comments of other posts are kept unchanged, and well-formed threads stay well formed (no reply loses its parent) |
| Schema.LikesOnRemove | shizofrenia.py:568-569 | deleting one like row lowers its post's number of likes by one and leaves every other post's likes alone |
| Schema.LikesOnAdd | shizofrenia.py:574-575 | adding one like row under a new key raises its post's number of likes by one and leaves every other post's likes alone |
| Schema.ValuesRemove | shizofrenia.py:44 | under the unique (user, post) constraint, deleting a row removes exactly its pair from the liked pairs |
| Schema.ValuesAdd | shizofrenia.py:574 | adding a row under a new key adds exactly its pair to the liked pairs |
| Schema.AddUserConsistent | shizofrenia.py:348-355 | adding a user whose name is not taken keeps the tables consistent, usernames unique included |
| Schema.AddPostConsistent | shizofrenia.py:431-434 | adding a post with a zero counter keeps the tables consistent |
| Schema.AddCommentConsistent | shizofrenia.py:536-548 | adding a comment on an existing post, whose parent (if any) is a comment of the same post, keeps every thread inside one post and the tables consistent |
| Schema.RemoveLikeConsistent | shizofrenia.py:566-570 | deleting a like row together with decrementing its post's counter keeps counters equal to like counts and the tables consistent |
| Schema.AddLikeConsistent | shizofrenia.py:572-576 | adding a like for a pair not liked yet together with incrementing the counter keeps the counters, the one-like-per-pair constraint and the tables consistent |
| Schema.DeletePostConsistent | shizofrenia.py:592-606 | removing a post with its likes and comments leaves no like or comment pointing at it and no reply without its parent |
| CommentTree.SortedIds | shizofrenia.py:456 | a set of comment ids listed in `created_at` order: same ids, none repeated, each earlier than the next |
| CommentTree.LevelHolds | shizofrenia.py:458-462 | a level that `Level` builds from a sorted list of ids holds exactly those comments, with their rows, earliest first |
| CommentTree.TreeShaped | shizofrenia.py:461-463 | in every node that `Tree` builds, the replies are exactly the comments whose parent is that node, earliest first, recursively |
| CommentTree.ForestShaped | shizofrenia.py:456-462 | the roots are exactly the post's comments without a parent, earliest first, and every subtree is shaped as above |
| CommentTree.FlattenOnce | shizofrenia.py:458-462 | a level whose nodes hang under one parent lists no comment twice when flattened |
| CommentTree.FlattenParentsFirst | shizofrenia.py:458-462 | in a flattened level, every reply comes after its parent |
| CommentTree.AllReached | shizofrenia.py:456-462 | every comment of the post appears in the flattened forest |
| CommentTree.ForestMembers | shizofrenia.py:456-462 | the flattened forest of a post holds exactly the comments of that post |
| CommentTree.ForestParentsFirst | shizofrenia.py:456-462 | in the flattened forest of a post, every reply comes after its parent |
| CommentTree.ForestFlattenExact | shizofrenia.py:455-487 | the flattened forest holds exactly the comments of the post, each once, and every reply after its parent |
| Forum.UserIdOf | shizofrenia.py:49-54 | finds a user exactly when one has the given name, and because usernames are unique the key it finds is the only one with that name |
| Forum.LikeOf | shizofrenia.py:564 | finds a like row exactly when the (user, post) pair is liked, and because pairs are unique the row it finds is the only one for that pair |
| Forum.Toggled | shizofrenia.py:564-576 | the toggle removes the pair from the liked pairs if it was there and adds it otherwise, and keeps at most one row per pair |
| Forum.ToggleCounts | shizofrenia.py:564-578 | the toggle changes the toggled post's like count by -1 if liked before and by +1 otherwise, and no other post's likes |
| Forum.ToggleTwice | shizofrenia.py:564-576 | toggling the same pair twice restores the liked pairs and every post's like count. This includes the store's own run, where a first toggle that removes a row leaves the next key unused, so the second toggle gets that same key. If the first toggle added the row, the second restores the table exactly |
| Forum.Store.constructor | shizofrenia.py:16-44 | the empty database is consistent |
| Forum.Store.Register | shizofrenia.py:342-356 | empty stripped username or password gives EmptyField; a taken username gives UsernameTaken; both leave the store unchanged. Otherwise exactly one user is added under the next user key, that key moves up by one, and usernames stay unique |
| Forum.Store.CreatePost | shizofrenia.py:426-435 | an empty stripped title or content gives EmptyField and changes nothing; otherwise exactly one post with no likes is added under the next post key, and that key moves up by one |
| Forum.Store.AddComment | shizofrenia.py:522-550 | checks in the order: empty content (EmptyContent), missing post (PostNotFound), parent missing or on another post (InvalidParent). Each refusal changes nothing. Otherwise exactly one comment is added under the next comment key, that key moves up by one, and the threads stay inside their posts |
| Forum.Store.LikePost | shizofrenia.py:553-580 | an unknown user or a missing post is refused with the store unchanged. Otherwise the likes table becomes `Toggled`; the answer is the new counter and `liked` = not liked before; only that post's counter moves (by -1 or +1); the counter equals the post's number of likes |
| Forum.Store.DeletePost | shizofrenia.py:583-612 | a missing post gives PostNotFound and a requester other than the author gives Forbidden, both with the store unchanged. Otherwise the post, its likes and its comments are gone, every other row is unchanged and the tables stay consistent |
| Forum.DropReply | shizofrenia.py:36 | deleting a comment removes its row and leaves no row pointing at it: its remaining replies get a null parent, as the `replies` relationship without delete cascade does at flush. So well-formed threads stay well formed, and every row that was not a reply to it is unchanged |
| Forum.Store.DeleteRepliesIn | shizofrenia.py:595-599 | the loop over comments with a parent deletes no top-level comment and no comment of another post. Every kept row is the row it started as, with its parent set to null exactly when that parent was deleted. Every reply whose parent was a comment of the post is gone, unless that parent itself went first. Every reply to a top-level comment of the post is gone |
| Schema.CommentsWithoutAgree | shizofrenia.py:602 | the bulk delete of the post's comments leaves the same table whatever the reply loop did before it, because the loop touched only rows of that post |
| Forum.Store.ViewPost | shizofrenia.py:451-487 | a missing post gives PostNotFound. Otherwise the answer is the shaped forest of the post, whose flattening lists every comment of the post once, each reply after its parent |

## Left out

- HTML, CSS and JavaScript: all markup, `render_register_form`, `render_login_form` and the `index` listing are presentation only.
- Flask plumbing: routing, `session`, `redirect`, `jsonify`, `serve_image` and `app.run`. The HTTP status codes (401, 403, 404) become `Error` values.
- The not-logged-in branch at the top of `create_post`, `view_post`, `add_comment`, `like_post` and `delete_post` is left out: these handlers always have a session user, `actor`.
- `Forum.Store.Register` models a visitor who is not logged in. The redirect of a logged-in session at shizofrenia.py:336-337, which creates nothing, is left out. So is logging the new user in at shizofrenia.py:355.
- `login`, `logout`, and password hashing are left out: they are foreign library calls. The stored password is the stripped password, not its hash.
- `datetime.utcnow` is a clock read, so `created_at` is the caller's `now`.
- SQLAlchemy is replaced by maps. New keys come from a per-table counter that starts at 1, so a deleted key is never handed out again. SQLite may reuse the largest rowid after a delete; this model does not.
- Concurrency and transactions are left out. The unique (user, post) constraint is a proved invariant, not a database check that fails a racing second insert.
- Column lengths (`String(80)`, `String(200)`) are not enforced: the forms never check them.
- `Forum.Store.AddComment` takes the parent as an optional number, but `add_comment` receives `parent_id` as a form string. A non-numeric string is not modelled. An empty string passes the test at shizofrenia.py:536 as "no parent", but line 545 stores it as given. Such a comment would then match neither the root query (456) nor any reply query (461), so `view_post` would not show it. The model has no such value: it stores `None`, and the comment is shown as a root.
- `CommentTree.SortedIds`: the database leaves the order of comments with equal `created_at` unspecified. The model breaks such ties by comment id.
- `Forum.Store.DeleteRepliesIn` visits the comments with a parent in an order the model does not fix. As in SQLAlchemy with autoflush, it looks each parent up in the table as that table is at that moment. The model nulls a deleted comment's replies at once, while SQLAlchemy does it at the next flush; the next flush comes before any later lookup, so the loop decides the same way.
- Notifications, the per-session write cooldown and `Like.created_at` do not exist in this code, so they are not modelled.
- There is a single `add_comment` route, and it checks that a parent belongs to the same post; the model keeps that check.
