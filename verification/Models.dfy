/**
 * The stored entities of the feed: users, posts, threaded comments and the two
 * like tables, with the uniqueness constraint on likes and the referential
 * integrity the foreign keys guarantee.
 */
module Models {
  import opened Wrappers
  import opened Karma

  /** Only the fields the core reads; the rest of the auth user is not modelled. */
  datatype User = User(id: int, username: string)

  /** A post; `author` is the joined user row. Timestamps are integer seconds. */
  datatype Post = Post(id: int, author: User, content: string, createdAt: int)

  /** A comment; `parent` is the nullable self reference (None: top-level). */
  datatype Comment = Comment(id: int, post: int, parent: Option<int>, author: User,
                             content: string, createdAt: int)

  /**
   * One row of `PostLike` (target is a post id) or of `CommentLike`
   * (target is a comment id).
   */
  datatype Like = Like(user: int, target: int, createdAt: int)

  /** The storage failure a duplicate `(user, target)` insert raises. */
  datatype DbError = IntegrityError

  /** A snapshot of every table the core touches, each in primary-key order. */
  datatype Db = Db(users: seq<User>, posts: seq<Post>, comments: seq<Comment>,
                   postLikes: seq<Like>, commentLikes: seq<Like>)

  /** The like table of the given kind. */
  function LikeTable(db: Db, kind: Kind): seq<Like>
  {
    match kind
    case OnPost => db.postLikes
    case OnComment => db.commentLikes
  }

  /** `db` with the like table of the given kind replaced by `rows`. */
  function WithLikeTable(db: Db, kind: Kind, rows: seq<Like>): (db': Db)
    ensures LikeTable(db', kind) == rows
    ensures db'.users == db.users && db'.posts == db.posts && db'.comments == db.comments
    ensures kind == OnPost ==> db'.commentLikes == db.commentLikes
    ensures kind == OnComment ==> db'.postLikes == db.postLikes
  {
    match kind
    case OnPost => db.(postLikes := rows)
    case OnComment => db.(commentLikes := rows)
  }

  // ---------------------------------------------------------------------------
  // Like rows
  // ---------------------------------------------------------------------------

  predicate IsPair(l: Like, user: int, target: int)
  {
    l.user == user && l.target == target
  }

  predicate HasPair(rows: seq<Like>, user: int, target: int)
  {
    exists l :: l in rows && IsPair(l, user, target)
  }

  /** The rows of one target, in table order (`<target>.likes.all()`). */
  function RowsFor(rows: seq<Like>, target: int): (r: seq<Like>)
    ensures forall l :: l in r <==> l in rows && l.target == target
    ensures |r| <= |rows|
  {
    if rows == [] then []
    else (if rows[0].target == target then [rows[0]] else []) + RowsFor(rows[1..], target)
  }

  /** `<target>.likes.count()`: how many rows name the target. */
  function LikeCount(rows: seq<Like>, target: int): nat
  {
    |RowsFor(rows, target)|
  }

  /** How many rows there are for one `(user, target)` pair. */
  function PairCount(rows: seq<Like>, user: int, target: int): (n: nat)
    ensures n == 0 <==> !HasPair(rows, user, target)
    ensures n <= LikeCount(rows, target)
  {
    if rows == [] then 0
    else (if IsPair(rows[0], user, target) then 1 else 0) + PairCount(rows[1..], user, target)
  }

  /** The rows that do not belong to the pair, in table order. */
  function OtherPairs(rows: seq<Like>, user: int, target: int): (r: seq<Like>)
    ensures forall l :: l in r <==> l in rows && !IsPair(l, user, target)
  {
    if rows == [] then []
    else (if IsPair(rows[0], user, target) then [] else [rows[0]]) + OtherPairs(rows[1..], user, target)
  }

  /** `unique_together = ('user', <target>)`: no two rows share a pair. */
  predicate UniquePairs(rows: seq<Like>)
  {
    forall i, j :: 0 <= i < j < |rows| ==> !IsPair(rows[j], rows[i].user, rows[i].target)
  }

  /** A row in front of a table keeps the pairs unique exactly when its pair is new to the table. */
  lemma ConsUnique(h: Like, t: seq<Like>)
    ensures UniquePairs([h] + t) <==> UniquePairs(t) && !HasPair(t, h.user, h.target)
  {
    var u := [h] + t;
    if UniquePairs(u) {
      forall i, j | 0 <= i < j < |t| ensures !IsPair(t[j], t[i].user, t[i].target) {
        assert t[i] == u[i + 1] && t[j] == u[j + 1];
      }
      forall l | l in t ensures !IsPair(l, h.user, h.target) {
        var j :| 0 <= j < |t| && t[j] == l;
        assert u[0] == h && u[j + 1] == l;
      }
    }
    if UniquePairs(t) && !HasPair(t, h.user, h.target) {
      forall i, j | 0 <= i < j < |u| ensures !IsPair(u[j], u[i].user, u[i].target) {
        assert u[j] == t[j - 1];
        if i == 0 {
          assert t[j - 1] in t;
        } else {
          assert u[i] == t[i - 1];
        }
      }
    }
  }

  lemma {:induction false} UniquePairCount(rows: seq<Like>, user: int, target: int)
    requires UniquePairs(rows)
    ensures PairCount(rows, user, target) <= 1
  {
    if rows != [] {
      assert UniquePairs(rows[1..]) by {
        forall i, j | 0 <= i < j < |rows[1..]|
          ensures !IsPair(rows[1..][j], rows[1..][i].user, rows[1..][i].target)
        {
          assert rows[1..][i] == rows[i + 1] && rows[1..][j] == rows[j + 1];
        }
      }
      UniquePairCount(rows[1..], user, target);
      if IsPair(rows[0], user, target) {
        forall l | l in rows[1..] ensures !IsPair(l, user, target) {
          var j :| 0 <= j < |rows[1..]| && rows[1..][j] == l;
          assert rows[j + 1] == l;
        }
      }
    }
  }

  /**
   * `<Like>.objects.create(...)`: the storage layer appends the row unless a row
   * for the same pair exists, in which case it raises `IntegrityError`.
   */
  function InsertLike(rows: seq<Like>, l: Like): (r: Result<seq<Like>, DbError>)
    ensures r.Err? <==> HasPair(rows, l.user, l.target)
    ensures r.Ok? ==> r.value == rows + [l]
    ensures r.Ok? && UniquePairs(rows) ==> UniquePairs(r.value)
  {
    if HasPair(rows, l.user, l.target) then Err(IntegrityError)
    else AppendKeepsUnique(rows, l); Ok(rows + [l])
  }

  lemma AppendKeepsUnique(rows: seq<Like>, l: Like)
    requires !HasPair(rows, l.user, l.target)
    ensures UniquePairs(rows) ==> UniquePairs(rows + [l])
  {
    forall i | 0 <= i < |rows| ensures !IsPair(l, rows[i].user, rows[i].target) {
      assert rows[i] in rows;
    }
  }

  /** A second insert for a pair that was just inserted always fails. */
  lemma SecondInsertFails(rows: seq<Like>, first: Like, second: Like)
    requires InsertLike(rows, first).Ok?
    requires first.user == second.user && first.target == second.target
    ensures InsertLike(InsertLike(rows, first).value, second) == Err(IntegrityError)
  {
    assert first in InsertLike(rows, first).value;
  }

  /** `.filter(user=..., <target>=...).first().delete()`: removes the first row of the pair. */
  function DeleteFirst(rows: seq<Like>, user: int, target: int): (r: seq<Like>)
    ensures HasPair(rows, user, target) ==> |r| == |rows| - 1
    ensures !HasPair(rows, user, target) ==> r == rows
    ensures OtherPairs(r, user, target) == OtherPairs(rows, user, target)
    ensures HasPair(rows, user, target) ==> PairCount(r, user, target) == PairCount(rows, user, target) - 1
    ensures HasPair(rows, user, target) ==> LikeCount(r, target) == LikeCount(rows, target) - 1
    ensures !HasPair(rows, user, target) ==> LikeCount(r, target) == LikeCount(rows, target)
    ensures forall l :: l in r ==> l in rows
  {
    if rows == [] then []
    else if IsPair(rows[0], user, target) then rows[1..]
    else [rows[0]] + DeleteFirst(rows[1..], user, target)
  }

  // ---------------------------------------------------------------------------
  // Post.__str__
  // ---------------------------------------------------------------------------

  /** How many characters of the content a post's label shows. */
  const LabelContentLength: nat := 50

  /** Python's `s[:n]` for a non-negative `n`. */
  function Truncate(s: string, n: nat): (r: string)
    ensures |r| == Min(n, |s|)
    ensures r <= s
  {
    if |s| <= n then s else s[..n]
  }

  /** `str(post)`: "Post by <username>: " followed by the first 50 characters of the content. */
  function PostLabel(p: Post): (r: string)
    ensures var head := "Post by " + p.author.username + ": ";
      && head <= r
      && r[|head|..] <= p.content
      && |r| == |head| + Min(LabelContentLength, |p.content|)
  {
    "Post by " + p.author.username + ": " + Truncate(p.content, LabelContentLength)
  }

  // ---------------------------------------------------------------------------
  // Integrity of a snapshot
  // ---------------------------------------------------------------------------

  /** Comment ids are primary keys. */
  predicate DistinctIds(cs: seq<Comment>)
  {
    forall i, j :: 0 <= i < j < |cs| ==> cs[i].id != cs[j].id
  }

  /**
   * A reply is created after the comment it answers, so in creation order a
   * parent always comes strictly before each of its replies.
   */
  predicate ParentsPrecede(cs: seq<Comment>)
  {
    forall i, j :: 0 <= i < |cs| && 0 <= j < |cs| && cs[j].parent == Some(cs[i].id) ==> i < j
  }

  /** The `parent` foreign key: every parent id names a stored comment. */
  predicate ParentsExist(cs: seq<Comment>)
  {
    forall c :: c in cs && c.parent.Some? ==> exists d :: d in cs && d.id == c.parent.value
  }

  predicate PostExists(db: Db, id: int)
  {
    exists p :: p in db.posts && p.id == id
  }

  predicate CommentExists(db: Db, id: int)
  {
    exists c :: c in db.comments && c.id == id
  }

  /** The row a like of the given kind points at exists. */
  predicate TargetExists(db: Db, kind: Kind, id: int)
  {
    match kind
    case OnPost => PostExists(db, id)
    case OnComment => CommentExists(db, id)
  }

  /** User ids are primary keys. */
  predicate DistinctUserIds(us: seq<User>)
  {
    forall i, j :: 0 <= i < j < |us| ==> us[i].id != us[j].id
  }

  /** Post ids are primary keys. */
  predicate DistinctPostIds(ps: seq<Post>)
  {
    forall i, j :: 0 <= i < j < |ps| ==> ps[i].id != ps[j].id
  }

  /** A user row in front keeps the ids distinct exactly when its id is new. */
  lemma ConsDistinctUsers(h: User, t: seq<User>)
    ensures DistinctUserIds([h] + t) <==> DistinctUserIds(t) && forall u :: u in t ==> u.id != h.id
  {
    var s := [h] + t;
    if DistinctUserIds(s) {
      forall i, j | 0 <= i < j < |t| ensures t[i].id != t[j].id {
        assert t[i] == s[i + 1] && t[j] == s[j + 1];
      }
      forall u | u in t ensures u.id != h.id {
        var j :| 0 <= j < |t| && t[j] == u;
        assert s[0] == h && s[j + 1] == u;
        assert s[0].id != s[j + 1].id;
      }
    }
    if DistinctUserIds(t) && forall u :: u in t ==> u.id != h.id {
      forall i, j | 0 <= i < j < |s| ensures s[i].id != s[j].id {
        assert s[j] == t[j - 1] && s[j] in t;
        if i > 0 {
          assert s[i] == t[i - 1];
        }
      }
    }
  }

  /** A post row in front keeps the ids distinct exactly when its id is new. */
  lemma ConsDistinctPosts(h: Post, t: seq<Post>)
    ensures DistinctPostIds([h] + t) <==> DistinctPostIds(t) && forall p :: p in t ==> p.id != h.id
  {
    var s := [h] + t;
    if DistinctPostIds(s) {
      forall i, j | 0 <= i < j < |t| ensures t[i].id != t[j].id {
        assert t[i] == s[i + 1] && t[j] == s[j + 1];
      }
      forall p | p in t ensures p.id != h.id {
        var j :| 0 <= j < |t| && t[j] == p;
        assert s[0] == h && s[j + 1] == p;
        assert s[0].id != s[j + 1].id;
      }
    }
    if DistinctPostIds(t) && forall p :: p in t ==> p.id != h.id {
      forall i, j | 0 <= i < j < |s| ensures s[i].id != s[j].id {
        assert s[j] == t[j - 1] && s[j] in t;
        if i > 0 {
          assert s[i] == t[i - 1];
        }
      }
    }
  }

  predicate UserExists(db: Db, id: int)
  {
    exists u :: u in db.users && u.id == id
  }

  /**
   * What the schema guarantees of every snapshot: the primary keys of users,
   * posts and comments; the `author` keys of posts and comments, the `post`
   * and `parent` keys of comments, and the `user` and target keys of likes;
   * and `unique_together` on both like tables.
   */
  predicate Valid(db: Db)
  {
    && DistinctUserIds(db.users)
    && DistinctPostIds(db.posts)
    && (forall p :: p in db.posts ==> p.author in db.users)
    && (forall c :: c in db.comments ==> c.author in db.users)
    && (forall kind: Kind, l :: l in LikeTable(db, kind) ==> UserExists(db, l.user))
    && DistinctIds(db.comments)
    && ParentsPrecede(db.comments)
    && ParentsExist(db.comments)
    && (forall c :: c in db.comments ==> PostExists(db, c.post))
    && (forall kind: Kind :: UniquePairs(LikeTable(db, kind)))
    && (forall kind: Kind, l :: l in LikeTable(db, kind) ==> TargetExists(db, kind, l.target))
  }
}
