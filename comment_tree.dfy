/**
 The comment forest of one post, as `view_post` assembles it before turning it
 into markup: the roots are the post's comments without a parent, each node's
 replies are the comments whose parent is that node, and every level is ordered
 by creation time.  Only the shape of the data is modelled here.
 */
module CommentTree {
  import opened Schema

  /** A comment together with its replies. */
  datatype Node = Node(id: nat, comment: Comment, replies: seq<Node>)

  /** `order_by(Comment.created_at)`; comments created at the same instant are
      taken in key order. */
  predicate Precedes(cs: map<nat, Comment>, a: nat, b: nat)
  {
    && a in cs && b in cs
    && (cs[a].createdAt < cs[b].createdAt || (cs[a].createdAt == cs[b].createdAt && a < b))
  }

  /** `m` is the earliest comment of `s`. */
  predicate IsFirst(cs: map<nat, Comment>, s: set<nat>, m: nat)
  {
    m in s && forall k :: k in s && k != m ==> Precedes(cs, m, k)
  }

  lemma {:induction false} FirstExists(cs: map<nat, Comment>, s: set<nat>)
    requires s != {} && s <= cs.Keys
    ensures exists m :: IsFirst(cs, s, m)
    decreases s
  {
    var x :| x in s;
    if s == {x} {
      assert IsFirst(cs, s, x);
    } else {
      FirstExists(cs, s - {x});
      var m :| IsFirst(cs, s - {x}, m);
      if Precedes(cs, x, m) {
        forall k | k in s && k != x ensures Precedes(cs, x, k) {
          if k != m { assert Precedes(cs, m, k); }
        }
        assert IsFirst(cs, s, x);
      } else {
        assert IsFirst(cs, s, m);
      }
    }
  }

  /** The keys of `s` in the order the query returns them. */
  function SortedIds(cs: map<nat, Comment>, s: set<nat>): (r: seq<nat>)
    requires s <= cs.Keys
    ensures |r| == |s|
    ensures forall k :: k in r <==> k in s
    ensures forall i, j :: 0 <= i < j < |r| ==> Precedes(cs, r[i], r[j])
    decreases s
  {
    if s == {} then []
    else
      FirstExists(cs, s);
      var m :| IsFirst(cs, s, m);
      [m] + SortedIds(cs, s - {m})
  }

  /** `Comment.query.filter_by(parent_id=c)`: the replies of `c`, whatever post they claim. */
  function ChildSet(cs: map<nat, Comment>, c: nat): set<nat>
  {
    set k | k in cs && cs[k].parentId == Some(c)
  }

  /** `Comment.query.filter_by(post_id=p, parent_id=None)`. */
  function RootSet(cs: map<nat, Comment>, p: nat): set<nat>
  {
    set k | k in cs && cs[k].postId == p && cs[k].parentId == None
  }

  /** A number above every key of `s`; it bounds the depth of the recursion. */
  ghost function Bound(s: set<nat>): (b: nat)
    ensures forall k :: k in s ==> k < b
  {
    if s == {} then 0
    else
      var x :| x in s;
      var b := Bound(s - {x});
      assert forall k :: k in s ==> k == x || k in s - {x};
      if x < b then b else x + 1
  }

  /** The subtree of comment `id` (one call of `render_comments` on its replies). */
  function Tree(cs: map<nat, Comment>, id: nat): (t: Node)
    requires ThreadsWellFormed(cs) && id in cs
    ensures t.id == id && t.comment == cs[id]
    decreases Bound(cs.Keys) - id, 1
  {
    var kids := SortedIds(cs, ChildSet(cs, id));
    assert forall i :: 0 <= i < |kids| ==> kids[i] in ChildSet(cs, id);
    Node(id, cs[id], Level(cs, kids, id))
  }

  /** The subtrees of the comments `ids`, in that order; every one of them is
      newer than `above`. */
  function Level(cs: map<nat, Comment>, ids: seq<nat>, ghost above: int): (ns: seq<Node>)
    requires ThreadsWellFormed(cs)
    requires above < Bound(cs.Keys)
    requires forall i :: 0 <= i < |ids| ==> ids[i] in cs && above < ids[i]
    ensures |ns| == |ids|
    ensures forall i :: 0 <= i < |ns| ==> ns[i] == Tree(cs, ids[i])
    decreases Bound(cs.Keys) - above, 0, |ids|
  {
    if ids == [] then [] else [Tree(cs, ids[0])] + Level(cs, ids[1..], above)
  }

  /** The forest shown under post `p`. */
  function Forest(cs: map<nat, Comment>, p: nat): seq<Node>
    requires ThreadsWellFormed(cs)
  {
    Level(cs, SortedIds(cs, RootSet(cs, p)), -1)
  }

  /** The keys of a forest in display order: each comment, then its replies. */
  function Flatten(ns: seq<Node>): seq<nat>
  {
    if ns == [] then [] else [ns[0].id] + Flatten(ns[0].replies) + Flatten(ns[1..])
  }

  /** `ns` holds exactly the comments `s`, carrying their rows, earliest first. */
  predicate IsLevel(cs: map<nat, Comment>, ns: seq<Node>, s: set<nat>)
  {
    && (forall i :: 0 <= i < |ns| ==> ns[i].id in s && ns[i].id in cs && ns[i].comment == cs[ns[i].id])
    && (forall k :: k in s ==> exists i :: 0 <= i < |ns| && ns[i].id == k)
    && (forall i, j :: 0 <= i < j < |ns| ==> Precedes(cs, ns[i].id, ns[j].id))
  }

  /** Below `n`, every node's replies are exactly its children, earliest first. */
  predicate Shaped(cs: map<nat, Comment>, n: Node)
  {
    && IsLevel(cs, n.replies, ChildSet(cs, n.id))
    && forall i :: 0 <= i < |n.replies| ==> Shaped(cs, n.replies[i])
  }

  /** A level built from the keys of `s`, earliest first, holds exactly `s`. */
  lemma LevelHolds(cs: map<nat, Comment>, ids: seq<nat>, above: int, s: set<nat>)
    requires ThreadsWellFormed(cs) && above < Bound(cs.Keys)
    requires forall i :: 0 <= i < |ids| ==> ids[i] in cs && above < ids[i]
    requires forall k :: k in ids <==> k in s
    requires forall i, j :: 0 <= i < j < |ids| ==> Precedes(cs, ids[i], ids[j])
    ensures IsLevel(cs, Level(cs, ids, above), s)
  {
    var ns := Level(cs, ids, above);
    forall i | 0 <= i < |ns| ensures ns[i].id == ids[i] && ns[i].comment == cs[ids[i]] {
      assert ns[i] == Tree(cs, ids[i]);
    }
    assert forall i :: 0 <= i < |ns| ==> ns[i].id == ids[i];
    forall k | k in s ensures exists i :: 0 <= i < |ns| && ns[i].id == k {
      var i :| 0 <= i < |ids| && ids[i] == k;
      assert ns[i].id == k;
    }
  }

  /** Every subtree that `Tree` builds has the shape `render_comments` walks. */
  lemma {:induction false} TreeShaped(cs: map<nat, Comment>, id: nat)
    requires ThreadsWellFormed(cs) && id in cs
    ensures Shaped(cs, Tree(cs, id))
    decreases Bound(cs.Keys) - id
  {
    var kids := SortedIds(cs, ChildSet(cs, id));
    assert forall i :: 0 <= i < |kids| ==> kids[i] in ChildSet(cs, id);
    var rs := Level(cs, kids, id);
    assert Tree(cs, id) == Node(id, cs[id], rs);
    LevelHolds(cs, kids, id, ChildSet(cs, id));
    forall i | 0 <= i < |rs| ensures Shaped(cs, rs[i]) {
      TreeShaped(cs, kids[i]);
    }
  }

  /** The roots are exactly the post's comments without a parent, earliest
      first, and every subtree is shaped. */
  lemma ForestShaped(cs: map<nat, Comment>, p: nat)
    requires ThreadsWellFormed(cs)
    ensures IsLevel(cs, Forest(cs, p), RootSet(cs, p))
    ensures forall i :: 0 <= i < |Forest(cs, p)| ==> Shaped(cs, Forest(cs, p)[i])
  {
    var roots := SortedIds(cs, RootSet(cs, p));
    var f := Level(cs, roots, -1);
    LevelHolds(cs, roots, -1, RootSet(cs, p));
    forall i | 0 <= i < |f| ensures Shaped(cs, f[i]) {
      TreeShaped(cs, roots[i]);
    }
  }

  // ---------------------------------------------------------------------------
  // Flattening the forest

  /** The nodes of `ns` are distinct comments that all hang from `par` (a
      comment, or `None` for the roots), each with a shaped subtree. */
  predicate Hanging(cs: map<nat, Comment>, ns: seq<Node>, par: Option<nat>)
  {
    && (forall i :: 0 <= i < |ns| ==> ns[i].id in cs && cs[ns[i].id].parentId == par && Shaped(cs, ns[i]))
    && (forall i, j :: 0 <= i < j < |ns| ==> ns[i].id != ns[j].id)
  }

  lemma RepliesHang(cs: map<nat, Comment>, n: Node)
    requires Shaped(cs, n)
    ensures Hanging(cs, n.replies, Some(n.id))
  {
    forall i, j | 0 <= i < j < |n.replies| ensures n.replies[i].id != n.replies[j].id {
      assert Precedes(cs, n.replies[i].id, n.replies[j].id);
    }
  }

  lemma ForestHangs(cs: map<nat, Comment>, p: nat)
    requires ThreadsWellFormed(cs)
    ensures Hanging(cs, Forest(cs, p), None)
  {
    var f := Forest(cs, p);
    ForestShaped(cs, p);
    forall i, j | 0 <= i < j < |f| ensures f[i].id != f[j].id {
      assert Precedes(cs, f[i].id, f[j].id);
    }
  }

  /** Every comment reached below a level of post `p` belongs to post `p`. */
  lemma {:induction false} FlattenInPost(cs: map<nat, Comment>, ns: seq<Node>, par: Option<nat>, p: nat)
    requires ThreadsWellFormed(cs) && Hanging(cs, ns, par)
    requires forall i :: 0 <= i < |ns| ==> cs[ns[i].id].postId == p
    ensures forall x :: x in Flatten(ns) ==> x in cs && cs[x].postId == p
  {
    if ns != [] {
      var n := ns[0];
      RepliesHang(cs, n);
      forall i | 0 <= i < |n.replies| ensures cs[n.replies[i].id].postId == p {
        assert n.replies[i].id in ChildSet(cs, n.id);
      }
      FlattenInPost(cs, n.replies, Some(n.id), p);
      FlattenInPost(cs, ns[1..], par, p);
    }
  }

  lemma {:induction false} IdsInFlatten(ns: seq<Node>, i: nat)
    requires i < |ns|
    ensures ns[i].id in Flatten(ns)
  {
    if i > 0 {
      IdsInFlatten(ns[1..], i - 1);
    }
  }

  /** A level that reaches a comment also reaches that comment's replies. */
  lemma {:induction false} ChildFollows(cs: map<nat, Comment>, ns: seq<Node>, par: Option<nat>, x: nat, k: nat)
    requires Hanging(cs, ns, par)
    requires x in Flatten(ns) && k in cs && cs[k].parentId == Some(x)
    ensures k in Flatten(ns)
  {
    var n := ns[0];
    RepliesHang(cs, n);
    if x == n.id {
      assert k in ChildSet(cs, n.id);
      var i :| 0 <= i < |n.replies| && n.replies[i].id == k;
      IdsInFlatten(n.replies, i);
    } else if x in Flatten(n.replies) {
      ChildFollows(cs, n.replies, Some(n.id), x, k);
    } else {
      ChildFollows(cs, ns[1..], par, x, k);
    }
  }

  /** Every comment of post `p` is reached from the roots of `p`. */
  lemma {:induction false} AllReached(cs: map<nat, Comment>, p: nat, k: nat)
    requires ThreadsWellFormed(cs)
    requires k in cs && cs[k].postId == p
    ensures k in Flatten(Forest(cs, p))
    decreases k
  {
    var f := Forest(cs, p);
    ForestShaped(cs, p);
    ForestHangs(cs, p);
    match cs[k].parentId
    case None =>
      assert k in RootSet(cs, p);
      var i :| 0 <= i < |f| && f[i].id == k;
      IdsInFlatten(f, i);
    case Some(q) =>
      AllReached(cs, p, q);
      ChildFollows(cs, f, None, q, k);
  }

  // ---------------------------------------------------------------------------
  // Ancestry

  /** `a` is `k` itself or one of its ancestors. */
  predicate Above(cs: map<nat, Comment>, a: nat, k: nat)
    decreases k
  {
    || k == a
    || (&& k in cs && cs[k].parentId.Some?
        && cs[k].parentId.value < k
        && Above(cs, a, cs[k].parentId.value))
  }

  lemma {:induction false} AboveIsOlder(cs: map<nat, Comment>, a: nat, k: nat)
    requires Above(cs, a, k)
    ensures a <= k
    decreases k
  {
    if k != a {
      AboveIsOlder(cs, a, cs[k].parentId.value);
    }
  }

  lemma {:induction false} AboveParent(cs: map<nat, Comment>, a: nat, r: nat, x: nat)
    requires r in cs && cs[r].parentId == Some(a) && a < r
    requires Above(cs, r, x)
    ensures Above(cs, a, x)
    decreases x
  {
    if x != r {
      AboveParent(cs, a, r, cs[x].parentId.value);
    }
  }

  /** The ancestors of a comment form a chain. */
  lemma {:induction false} AboveChain(cs: map<nat, Comment>, i: nat, j: nat, x: nat)
    requires Above(cs, i, x) && Above(cs, j, x)
    ensures Above(cs, i, j) || Above(cs, j, i)
    decreases x
  {
    if x != i && x != j {
      AboveChain(cs, i, j, cs[x].parentId.value);
    }
  }

  /** Two distinct comments with the same parent have no common descendant. */
  lemma SiblingsDisjoint(cs: map<nat, Comment>, i: nat, j: nat, x: nat)
    requires ThreadsWellFormed(cs)
    requires i in cs && j in cs && i != j && cs[i].parentId == cs[j].parentId
    requires Above(cs, i, x)
    ensures !Above(cs, j, x)
  {
    if Above(cs, j, x) {
      AboveChain(cs, i, j, x);
      if Above(cs, i, j) {
        AboveIsOlder(cs, i, cs[j].parentId.value);
      } else {
        AboveIsOlder(cs, j, cs[i].parentId.value);
      }
    }
  }

  /** Everything reached below a level descends from one of its nodes. */
  lemma {:induction false} FlattenBelow(cs: map<nat, Comment>, ns: seq<Node>, par: Option<nat>, x: nat)
    requires ThreadsWellFormed(cs) && Hanging(cs, ns, par)
    requires x in Flatten(ns)
    ensures exists i :: 0 <= i < |ns| && Above(cs, ns[i].id, x)
  {
    var n := ns[0];
    if x == n.id {
      assert Above(cs, ns[0].id, x);
    } else if x in Flatten(n.replies) {
      RepliesHang(cs, n);
      FlattenBelow(cs, n.replies, Some(n.id), x);
      var i :| 0 <= i < |n.replies| && Above(cs, n.replies[i].id, x);
      AboveParent(cs, n.id, n.replies[i].id, x);
      assert Above(cs, ns[0].id, x);
    } else {
      FlattenBelow(cs, ns[1..], par, x);
      var i :| 0 <= i < |ns[1..]| && Above(cs, ns[1..][i].id, x);
      assert Above(cs, ns[i + 1].id, x);
    }
  }

  predicate NoDuplicates(s: seq<nat>)
  {
    forall i, j :: 0 <= i < j < |s| ==> s[i] != s[j]
  }

  lemma NoDuplicatesConcat(a: seq<nat>, b: seq<nat>)
    requires NoDuplicates(a) && NoDuplicates(b)
    requires forall x :: x in a ==> x !in b
    ensures NoDuplicates(a + b)
  {
    forall i, j | 0 <= i < j < |a + b| ensures (a + b)[i] != (a + b)[j] {
      if i < |a| && |a| <= j {
        assert (a + b)[i] in a && (a + b)[j] == b[j - |a|];
      }
    }
  }

  /** No comment is reached twice below a level. */
  lemma {:induction false} FlattenOnce(cs: map<nat, Comment>, ns: seq<Node>, par: Option<nat>)
    requires ThreadsWellFormed(cs) && Hanging(cs, ns, par)
    ensures NoDuplicates(Flatten(ns))
  {
    if ns != [] {
      var n := ns[0];
      var rs, ts := Flatten(n.replies), Flatten(ns[1..]);
      RepliesHang(cs, n);
      FlattenOnce(cs, n.replies, Some(n.id));
      FlattenOnce(cs, ns[1..], par);
      forall x | x in rs ensures x != n.id && x !in ts && Above(cs, n.id, x) {
        FlattenBelow(cs, n.replies, Some(n.id), x);
        var i :| 0 <= i < |n.replies| && Above(cs, n.replies[i].id, x);
        assert n.replies[i].id in ChildSet(cs, n.id);
        AboveIsOlder(cs, n.replies[i].id, x);
        AboveParent(cs, n.id, n.replies[i].id, x);
        if x in ts {
          FlattenBelow(cs, ns[1..], par, x);
          var j :| 0 <= j < |ns[1..]| && Above(cs, ns[1..][j].id, x);
          assert ns[j + 1].id != n.id;
          SiblingsDisjoint(cs, n.id, ns[j + 1].id, x);
        }
      }
      if n.id in ts {
        FlattenBelow(cs, ns[1..], par, n.id);
        var j :| 0 <= j < |ns[1..]| && Above(cs, ns[1..][j].id, n.id);
        assert ns[j + 1].id != n.id;
        SiblingsDisjoint(cs, n.id, ns[j + 1].id, n.id);
      }
      NoDuplicatesConcat([n.id], rs);
      NoDuplicatesConcat([n.id] + rs, ts);
    }
  }

  /** In `s`, every comment whose parent is not `par` comes after its parent. */
  predicate ParentsFirst(cs: map<nat, Comment>, s: seq<nat>, par: Option<nat>)
  {
    forall j :: 0 <= j < |s| ==>
      && s[j] in cs
      && (cs[s[j]].parentId == par || exists i :: 0 <= i < j && Some(s[i]) == cs[s[j]].parentId)
  }

  lemma {:induction false} FlattenParentsFirst(cs: map<nat, Comment>, ns: seq<Node>, par: Option<nat>)
    requires Hanging(cs, ns, par)
    ensures ParentsFirst(cs, Flatten(ns), par)
  {
    if ns != [] {
      var n := ns[0];
      var rs, ts := Flatten(n.replies), Flatten(ns[1..]);
      var s := Flatten(ns);
      assert s == [n.id] + rs + ts;
      RepliesHang(cs, n);
      FlattenParentsFirst(cs, n.replies, Some(n.id));
      FlattenParentsFirst(cs, ns[1..], par);
      forall j | 0 <= j < |s|
        ensures s[j] in cs && (cs[s[j]].parentId == par || exists i :: 0 <= i < j && Some(s[i]) == cs[s[j]].parentId)
      {
        if j == 0 {
        } else if j <= |rs| {
          assert s[j] == rs[j - 1];
          if cs[rs[j - 1]].parentId == Some(n.id) {
            assert Some(s[0]) == cs[s[j]].parentId;
          } else {
            var i :| 0 <= i < j - 1 && Some(rs[i]) == cs[rs[j - 1]].parentId;
            assert s[i + 1] == rs[i];
          }
        } else {
          var jj := j - 1 - |rs|;
          assert s[j] == ts[jj];
          if cs[ts[jj]].parentId != par {
            var i :| 0 <= i < jj && Some(ts[i]) == cs[ts[jj]].parentId;
            assert s[i + 1 + |rs|] == ts[i];
          }
        }
      }
    }
  }

  /** The flattened forest of post `p` holds exactly the comments of `p`. */
  lemma ForestMembers(cs: map<nat, Comment>, p: nat)
    requires ThreadsWellFormed(cs)
    ensures forall k :: k in Flatten(Forest(cs, p)) <==> k in cs && cs[k].postId == p
  {
    var f := Forest(cs, p);
    ForestShaped(cs, p);
    ForestHangs(cs, p);
    forall i | 0 <= i < |f| ensures cs[f[i].id].postId == p {
      assert f[i].id in RootSet(cs, p);
    }
    FlattenInPost(cs, f, None, p);
    forall k | k in cs && cs[k].postId == p ensures k in Flatten(f) {
      AllReached(cs, p, k);
    }
  }

  /** In the flattened forest, every reply comes after its parent. */
  lemma ForestParentsFirst(cs: map<nat, Comment>, p: nat)
    requires ThreadsWellFormed(cs)
    ensures var s := Flatten(Forest(cs, p));
      forall j :: 0 <= j < |s| && s[j] in cs && cs[s[j]].parentId.Some? ==>
        exists i :: 0 <= i < j && s[i] == cs[s[j]].parentId.value
  {
    var s := Flatten(Forest(cs, p));
    ForestHangs(cs, p);
    FlattenParentsFirst(cs, Forest(cs, p), None);
    forall j | 0 <= j < |s| && s[j] in cs && cs[s[j]].parentId.Some?
      ensures exists i :: 0 <= i < j && s[i] == cs[s[j]].parentId.value
    {
      assert cs[s[j]].parentId != None;
      var i :| 0 <= i < j && Some(s[i]) == cs[s[j]].parentId;
      assert s[i] == cs[s[j]].parentId.value;
    }
  }

  /** Flattening the forest of post `p` lists every comment of `p` and nothing
      else, each exactly once, and every reply after its parent. */
  lemma ForestFlattenExact(cs: map<nat, Comment>, p: nat)
    requires ThreadsWellFormed(cs)
    ensures var s := Flatten(Forest(cs, p));
      && (forall k :: k in s <==> k in cs && cs[k].postId == p)
      && NoDuplicates(s)
      && (forall j :: 0 <= j < |s| && cs[s[j]].parentId.Some? ==>
            exists i :: 0 <= i < j && s[i] == cs[s[j]].parentId.value)
  {
    ForestMembers(cs, p);
    ForestHangs(cs, p);
    FlattenOnce(cs, Forest(cs, p), None);
    ForestParentsFirst(cs, p);
  }
}
