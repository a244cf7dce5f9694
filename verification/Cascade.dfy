/**
 * `on_delete=CASCADE` on every foreign key of the schema: deleting a post, a
 * comment or a user removes every row that depends on it, transitively
 * through the `parent` reference of comments.
 */
module Cascade {
  import opened Wrappers
  import opened Karma
  import opened Models
  import opened Thread
  import opened CommentTree

  /** The row whose deletion starts the cascade. */
  datatype Cause = PostDeleted(post: int) | CommentDeleted(comment: int) | UserDeleted(user: int)

  /** A post the deletion removes: the deleted post, or every post of the deleted user. */
  predicate PostGoes(cause: Cause, p: Post)
  {
    match cause
    case PostDeleted(id) => p.id == id
    case CommentDeleted(_) => false
    case UserDeleted(u) => p.author.id == u
  }

  /** Some post with this id is removed. */
  predicate PostGone(db: Db, cause: Cause, id: int)
  {
    exists p :: p in db.posts && p.id == id && PostGoes(cause, p)
  }

  /**
   * A comment the deletion reaches without going through its parent: its
   * post goes, it is the deleted comment, or its author is the deleted user.
   */
  predicate Hit(db: Db, cause: Cause, c: Comment)
  {
    || PostGone(db, cause, c.post)
    || (cause.CommentDeleted? && c.id == cause.comment)
    || (cause.UserDeleted? && c.author.id == cause.user)
  }

  /** Comment `j` is removed: it is hit, or the comment it replies to is removed. */
  predicate Falls(db: Db, cause: Cause, j: nat)
    requires j < |db.comments|
    decreases j
  {
    Hit(db, cause, db.comments[j]) ||
    match ParentIdx(db.comments, j)
    case Some(p) => p < j && Falls(db, cause, p)
    case None => false
  }

  /** Some removed comment has this id. */
  predicate CommentGone(db: Db, cause: Cause, id: int)
  {
    exists j :: 0 <= j < |db.comments| && db.comments[j].id == id && Falls(db, cause, j)
  }

  /** A like row the deletion removes: its user goes, or the row it points at goes. */
  predicate LikeGoes(db: Db, cause: Cause, kind: Kind, l: Like)
  {
    || (cause.UserDeleted? && l.user == cause.user)
    || (match kind
        case OnPost => PostGone(db, cause, l.target)
        case OnComment => CommentGone(db, cause, l.target))
  }

  // ---------------------------------------------------------------------------
  // The filtered tables
  // ---------------------------------------------------------------------------

  /** The indices of the comments that stay. */
  function Kept(db: Db, cause: Cause): (ks: seq<nat>)
    ensures forall k: nat :: k in ks <==> k < |db.comments| && !Falls(db, cause, k)
    ensures Increasing(ks)
    ensures forall m :: 0 <= m < |ks| ==> ks[m] < |db.comments|
  {
    var n := |db.comments|;
    var keep := (k: nat) => k < n && !Falls(db, cause, k);
    SelectSpec(n, keep);
    Select(n, keep)
  }

  function KeptComments(db: Db, cause: Cause): (r: seq<Comment>)
    ensures var ks := Kept(db, cause);
      |r| == |ks| && forall t :: 0 <= t < |ks| ==> r[t] == db.comments[ks[t]]
  {
    var ks := Kept(db, cause);
    seq(|ks|, t requires 0 <= t < |ks| => db.comments[ks[t]])
  }

  function KeptPosts(ps: seq<Post>, cause: Cause): (r: seq<Post>)
    ensures forall p :: p in r <==> p in ps && !PostGoes(cause, p)
    ensures DistinctPostIds(ps) ==> DistinctPostIds(r)
  {
    if ps == [] then []
    else
      var rest := KeptPosts(ps[1..], cause);
      assert ps == [ps[0]] + ps[1..];
      ConsDistinctPosts(ps[0], ps[1..]);
      ConsDistinctPosts(ps[0], rest);
      (if PostGoes(cause, ps[0]) then [] else [ps[0]]) + rest
  }

  function KeptUsers(us: seq<User>, cause: Cause): (r: seq<User>)
    ensures forall u :: u in r <==> u in us && !(cause.UserDeleted? && u.id == cause.user)
    ensures DistinctUserIds(us) ==> DistinctUserIds(r)
  {
    if us == [] then []
    else
      var rest := KeptUsers(us[1..], cause);
      assert us == [us[0]] + us[1..];
      ConsDistinctUsers(us[0], us[1..]);
      ConsDistinctUsers(us[0], rest);
      (if cause.UserDeleted? && us[0].id == cause.user then [] else [us[0]]) + rest
  }

  /** The like rows of one table that stay, in table order. */
  function KeptLikes(db: Db, cause: Cause, kind: Kind, rows: seq<Like>): (r: seq<Like>)
    ensures forall l :: l in r <==> l in rows && !LikeGoes(db, cause, kind, l)
    ensures UniquePairs(rows) ==> UniquePairs(r)
  {
    if rows == [] then []
    else
      var rest := KeptLikes(db, cause, kind, rows[1..]);
      assert rows == [rows[0]] + rows[1..];
      ConsUnique(rows[0], rows[1..]);
      ConsUnique(rows[0], rest);
      (if LikeGoes(db, cause, kind, rows[0]) then [] else [rows[0]]) + rest
  }

  /** `c` is a stored comment the cascade does not reach. */
  predicate Stays(db: Db, cause: Cause, c: Comment)
  {
    exists j :: 0 <= j < |db.comments| && db.comments[j] == c && !Falls(db, cause, j)
  }

  lemma KeptCommentsStay(db: Db, cause: Cause)
    ensures forall c :: c in KeptComments(db, cause) <==> Stays(db, cause, c)
  {
    var cs := KeptComments(db, cause);
    var ks := Kept(db, cause);
    forall c ensures c in cs <==> Stays(db, cause, c) {
      if c in cs {
        var t :| 0 <= t < |cs| && cs[t] == c;
        assert ks[t] in ks;
      }
      if Stays(db, cause, c) {
        var j :| 0 <= j < |db.comments| && db.comments[j] == c && !Falls(db, cause, j);
        var t :| 0 <= t < |ks| && ks[t] == j;
        assert cs[t] == c;
      }
    }
  }

  /** The snapshot after the cascade: every table with the removed rows filtered out. */
  function Delete(db: Db, cause: Cause): (db': Db)
    ensures forall u :: u in db'.users <==> u in db.users && !(cause.UserDeleted? && u.id == cause.user)
    ensures forall p :: p in db'.posts <==> p in db.posts && !PostGoes(cause, p)
    ensures forall c :: c in db'.comments <==> Stays(db, cause, c)
    ensures forall kind: Kind, l :: l in LikeTable(db', kind) <==>
      l in LikeTable(db, kind) && !LikeGoes(db, cause, kind, l)
  {
    KeptCommentsStay(db, cause);
    Db(KeptUsers(db.users, cause), KeptPosts(db.posts, cause), KeptComments(db, cause),
       KeptLikes(db, cause, OnPost, db.postLikes), KeptLikes(db, cause, OnComment, db.commentLikes))
  }

  // ---------------------------------------------------------------------------
  // What the cascade removes
  // ---------------------------------------------------------------------------

  /**
   * A comment is removed exactly when it or one of the comments above it is
   * hit directly.
   */
  lemma {:induction false} FallsIffHitAbove(db: Db, cause: Cause, j: nat)
    requires j < |db.comments|
    ensures Falls(db, cause, j) <==>
      exists a: nat :: a <= j && IsAnc(db.comments, a, j) && Hit(db, cause, db.comments[a])
    decreases j
  {
    var cs := db.comments;
    if Hit(db, cause, cs[j]) {
      assert IsAnc(cs, j, j);
    } else {
      match ParentIdx(cs, j)
      case None =>
      case Some(p) =>
        if p < j {
          FallsIffHitAbove(db, cause, p);
          if Falls(db, cause, p) {
            var a: nat :| a <= p && IsAnc(cs, a, p) && Hit(db, cause, cs[a]);
            AncTrans(cs, a, p, j);
          }
          if exists a: nat :: a <= j && IsAnc(cs, a, j) && Hit(db, cause, cs[a]) {
            var a: nat :| a <= j && IsAnc(cs, a, j) && Hit(db, cause, cs[a]);
            assert a != j;
            assert IsAnc(cs, a, p);
            AncBelow(cs, a, p);
          }
        }
    }
  }

  /** Deleting a comment removes exactly its subtree from the comment table. */
  lemma CommentDeletionRemovesSubtree(db: Db, id: int, j: nat)
    requires j < |db.comments|
    ensures var cause := CommentDeleted(id);
      Falls(db, cause, j) <==> exists a: nat :: a <= j && IsAnc(db.comments, a, j) && db.comments[a].id == id
  {
    FallsIffHitAbove(db, CommentDeleted(id), j);
  }

  /**
   * Deleting a post removes every comment on it and everything below those,
   * and nothing else.
   */
  lemma PostDeletionRemovesThreads(db: Db, id: int, j: nat)
    requires j < |db.comments| && PostExists(db, id)
    ensures var cause := PostDeleted(id);
      Falls(db, cause, j) <==> exists a: nat :: a <= j && IsAnc(db.comments, a, j) && db.comments[a].post == id
  {
    var cause := PostDeleted(id);
    FallsIffHitAbove(db, cause, j);
    forall a: nat | a < |db.comments| ensures Hit(db, cause, db.comments[a]) <==> db.comments[a].post == id {
      if db.comments[a].post == id {
        var p :| p in db.posts && p.id == id;
        assert PostGoes(cause, p);
      }
    }
  }

  // ---------------------------------------------------------------------------
  // The cascade keeps the schema's guarantees
  // ---------------------------------------------------------------------------

  lemma IncreasingMonotone(ks: seq<nat>, t: nat, u: nat)
    requires Increasing(ks) && t < |ks| && u < |ks| && ks[t] < ks[u]
    ensures t < u
  {
  }

  lemma KeptCommentsOrdered(db: Db, cause: Cause)
    requires DistinctIds(db.comments) && ParentsPrecede(db.comments)
    ensures DistinctIds(KeptComments(db, cause)) && ParentsPrecede(KeptComments(db, cause))
  {
    var cs := KeptComments(db, cause);
    var ks := Kept(db, cause);
    forall t, u | 0 <= t < |cs| && 0 <= u < |cs| && cs[u].parent == Some(cs[t].id) ensures t < u {
      assert db.comments[ks[u]].parent == Some(db.comments[ks[t]].id);
      IncreasingMonotone(ks, t, u);
    }
  }

  /** A surviving reply's parent survives too. */
  lemma ParentSurvives(db: Db, cause: Cause, j: nat)
    requires DistinctIds(db.comments) && ParentsPrecede(db.comments) && ParentsExist(db.comments)
    requires j < |db.comments| && !Falls(db, cause, j)
    requires db.comments[j].parent.Some?
    ensures exists i ::
      0 <= i < |db.comments| && db.comments[i].id == db.comments[j].parent.value && !Falls(db, cause, i)
  {
    var cs := db.comments;
    assert cs[j] in cs;
    var d :| d in cs && d.id == cs[j].parent.value;
    var i :| 0 <= i < |cs| && cs[i] == d;
    ParentIdxUnique(cs, i, j);
  }

  lemma CommentsStayValid(db: Db, cause: Cause)
    requires Valid(db)
    ensures var db' := Delete(db, cause);
      && DistinctIds(db'.comments) && ParentsPrecede(db'.comments) && ParentsExist(db'.comments)
  {
    var db' := Delete(db, cause);
    KeptCommentsOrdered(db, cause);
    forall c | c in db'.comments && c.parent.Some?
      ensures exists d :: d in db'.comments && d.id == c.parent.value
    {
      ParentKept(db, cause, c);
      var d :| Stays(db, cause, d) && d.id == c.parent.value;
      assert d in db'.comments;
    }
  }

  lemma ParentKept(db: Db, cause: Cause, c: Comment)
    requires DistinctIds(db.comments) && ParentsPrecede(db.comments) && ParentsExist(db.comments)
    requires Stays(db, cause, c) && c.parent.Some?
    ensures exists d :: Stays(db, cause, d) && d.id == c.parent.value
  {
    var j :| 0 <= j < |db.comments| && db.comments[j] == c && !Falls(db, cause, j);
    ParentSurvives(db, cause, j);
    var i :| 0 <= i < |db.comments| && db.comments[i].id == c.parent.value && !Falls(db, cause, i);
    assert Stays(db, cause, db.comments[i]);
  }

  lemma PostSurvives(db: Db, cause: Cause, c: Comment)
    requires Valid(db) && c in Delete(db, cause).comments
    ensures PostExists(Delete(db, cause), c.post)
  {
    var j :| 0 <= j < |db.comments| && db.comments[j] == c && !Falls(db, cause, j);
    assert c in db.comments;
    var p :| p in db.posts && p.id == c.post;
    assert p in Delete(db, cause).posts;
  }

  /** A like row the cascade keeps still points at a row the cascade keeps. */
  lemma TargetSurvives(db: Db, cause: Cause, kind: Kind, l: Like)
    requires TargetExists(db, kind, l.target) && !LikeGoes(db, cause, kind, l)
    ensures TargetExists(Delete(db, cause), kind, l.target)
  {
    match kind
    case OnPost => PostTargetSurvives(db, cause, l.target);
    case OnComment => CommentTargetSurvives(db, cause, l.target);
  }

  lemma PostTargetSurvives(db: Db, cause: Cause, id: int)
    requires PostExists(db, id) && !PostGone(db, cause, id)
    ensures PostExists(Delete(db, cause), id)
  {
    var p :| p in db.posts && p.id == id;
    assert p in Delete(db, cause).posts;
  }

  lemma CommentTargetSurvives(db: Db, cause: Cause, id: int)
    requires CommentExists(db, id) && !CommentGone(db, cause, id)
    ensures CommentExists(Delete(db, cause), id)
  {
    var c :| c in db.comments && c.id == id;
    var j :| 0 <= j < |db.comments| && db.comments[j] == c;
    assert Stays(db, cause, c);
    assert c in Delete(db, cause).comments;
  }

  lemma ReferencesStayValid(db: Db, cause: Cause)
    requires Valid(db)
    ensures var db' := Delete(db, cause);
      && (forall c :: c in db'.comments ==> PostExists(db', c.post))
      && (forall kind: Kind, l :: l in LikeTable(db', kind) ==> TargetExists(db', kind, l.target))
  {
    var db' := Delete(db, cause);
    forall c | c in db'.comments ensures PostExists(db', c.post) {
      PostSurvives(db, cause, c);
    }
    forall kind: Kind, l | l in LikeTable(db', kind) ensures TargetExists(db', kind, l.target) {
      assert l in LikeTable(db, kind) && !LikeGoes(db, cause, kind, l);
      TargetSurvives(db, cause, kind, l);
    }
  }

  /** Every surviving post, comment and like still has its user. */
  lemma UsersStayValid(db: Db, cause: Cause)
    requires Valid(db)
    ensures var db' := Delete(db, cause);
      && (forall p :: p in db'.posts ==> p.author in db'.users)
      && (forall c :: c in db'.comments ==> c.author in db'.users)
      && (forall kind: Kind, l :: l in LikeTable(db', kind) ==> UserExists(db', l.user))
  {
    var db' := Delete(db, cause);
    forall c | c in db'.comments ensures c.author in db'.users {
      var j :| 0 <= j < |db.comments| && db.comments[j] == c && !Falls(db, cause, j);
      assert c in db.comments;
    }
    forall kind: Kind, l | l in LikeTable(db', kind) ensures UserExists(db', l.user) {
      assert l in LikeTable(db, kind) && !LikeGoes(db, cause, kind, l);
      var u :| u in db.users && u.id == l.user;
      assert u in db'.users;
    }
  }

  /** Whatever is deleted, the remaining snapshot still meets every schema guarantee. */
  lemma DeleteKeepsValid(db: Db, cause: Cause)
    requires Valid(db)
    ensures Valid(Delete(db, cause))
  {
    var db' := Delete(db, cause);
    CommentsStayValid(db, cause);
    ReferencesStayValid(db, cause);
    UsersStayValid(db, cause);
    forall kind: Kind ensures UniquePairs(LikeTable(db', kind)) {
      assert UniquePairs(LikeTable(db, kind));
    }
  }

  // ---------------------------------------------------------------------------
  // What each deletion leaves behind
  // ---------------------------------------------------------------------------

  /**
   * After deleting a post no post, comment or post like refers to it, while
   * posts and post likes of other posts stay.
   */
  lemma PostDeletionClears(db: Db, id: int)
    requires Valid(db) && PostExists(db, id)
    ensures var d := Delete(db, PostDeleted(id));
      && (forall p :: p in d.posts <==> p in db.posts && p.id != id)
      && (forall c :: c in d.comments ==> c.post != id)
      && (forall l :: l in d.postLikes <==> l in db.postLikes && l.target != id)
  {
    var cause := PostDeleted(id);
    var d := Delete(db, cause);
    forall c | c in d.comments ensures c.post != id {
      var j :| 0 <= j < |db.comments| && db.comments[j] == c && !Falls(db, cause, j);
    }
    forall l ensures l in d.postLikes <==> l in db.postLikes && l.target != id {
      assert l in LikeTable(d, OnPost) <==> l in LikeTable(db, OnPost) && !LikeGoes(db, cause, OnPost, l);
      if l.target == id {
        var p :| p in db.posts && p.id == id;
        assert PostGoes(cause, p);
      }
    }
  }

  /**
   * After deleting a comment no comment has its id or replies to it and no
   * like points at it; posts and post likes are untouched.
   */
  lemma CommentDeletionClears(db: Db, id: int)
    requires Valid(db)
    ensures var d := Delete(db, CommentDeleted(id));
      && (forall c :: c in d.comments ==> c.id != id && c.parent != Some(id))
      && (forall l :: l in d.commentLikes ==> l.target != id)
      && (forall p :: p in d.posts <==> p in db.posts)
      && (forall l :: l in d.postLikes <==> l in db.postLikes)
  {
    var cause := CommentDeleted(id);
    var d := Delete(db, cause);
    CommentsStayValid(db, cause);
    assert forall c :: c in d.comments ==> c.id != id;
    forall l | l in d.commentLikes ensures l.target != id {
      assert l in LikeTable(d, OnComment);
    }
    forall l ensures l in d.postLikes <==> l in db.postLikes {
      assert l in LikeTable(d, OnPost) <==> l in LikeTable(db, OnPost) && !LikeGoes(db, cause, OnPost, l);
    }
  }

  /**
   * After deleting a user no row refers to them: their posts, their comments,
   * every comment on their posts and every like they gave are gone.
   */
  lemma UserDeletionClears(db: Db, id: int)
    ensures var d := Delete(db, UserDeleted(id));
      && (forall u :: u in d.users <==> u in db.users && u.id != id)
      && (forall p :: p in d.posts <==> p in db.posts && p.author.id != id)
      && (forall c :: c in d.comments ==> c.author.id != id)
      && (forall c, p :: c in d.comments && p in db.posts && p.id == c.post ==> p.author.id != id)
      && (forall kind: Kind, l :: l in LikeTable(d, kind) ==> l.user != id)
  {
    var cause := UserDeleted(id);
    var d := Delete(db, cause);
    forall c | c in d.comments ensures c.author.id != id {
      var j :| 0 <= j < |db.comments| && db.comments[j] == c && !Falls(db, cause, j);
    }
    forall c, p | c in d.comments && p in db.posts && p.id == c.post ensures p.author.id != id {
      var j :| 0 <= j < |db.comments| && db.comments[j] == c && !Falls(db, cause, j);
    }
    forall kind: Kind, l | l in LikeTable(d, kind) ensures l.user != id {
      assert !LikeGoes(db, cause, kind, l);
    }
  }
}
