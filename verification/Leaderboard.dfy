/**
 * The 24-hour karma leaderboard: each user earns 5 points for every like on
 * one of their posts and 1 point for every like on one of their comments,
 * counting only likes made in the last 24 hours; the five best users with
 * positive karma are listed, best first.
 */
module Leaderboard {
  import opened Wrappers
  import opened Karma
  import opened Models
  import opened Ordering

  /** The window, in seconds. */
  const Window: int := 24 * 60 * 60

  /** The oldest like timestamp that still counts. */
  function Cutoff(now: int): int
  {
    now - Window
  }

  /** One row of the response: a user and the karma credited to them. */
  datatype Entry = Entry(id: int, username: string, karma: int)

  // ---------------------------------------------------------------------------
  // Whose karma a like row feeds
  // ---------------------------------------------------------------------------

  /** The author of the first post with this id (the `post__author` join). */
  function PostAuthor(ps: seq<Post>, id: int): (r: Option<int>)
    ensures r.Some? <==> exists p :: p in ps && p.id == id
    ensures r.Some? ==> exists p :: p in ps && p.id == id && p.author.id == r.value
  {
    if ps == [] then None
    else if ps[0].id == id then Some(ps[0].author.id)
    else PostAuthor(ps[1..], id)
  }

  /** The author of the first comment with this id (the `comment__author` join). */
  function CommentAuthor(cs: seq<Comment>, id: int): (r: Option<int>)
    ensures r.Some? <==> exists c :: c in cs && c.id == id
    ensures r.Some? ==> exists c :: c in cs && c.id == id && c.author.id == r.value
  {
    if cs == [] then None
    else if cs[0].id == id then Some(cs[0].author.id)
    else CommentAuthor(cs[1..], id)
  }

  function TargetAuthor(db: Db, kind: Kind, target: int): Option<int>
  {
    match kind
    case OnPost => PostAuthor(db.posts, target)
    case OnComment => CommentAuthor(db.comments, target)
  }

  /** The row is inside the window and points at something `user` wrote. */
  predicate Earns(db: Db, kind: Kind, l: Like, user: int, cutoff: int)
  {
    l.createdAt >= cutoff && TargetAuthor(db, kind, l.target) == Some(user)
  }

  /** How many of `rows` earn `user` karma (the subquery's `Count('id')`). */
  function Earning(db: Db, kind: Kind, rows: seq<Like>, user: int, cutoff: int): (n: nat)
    ensures n <= |rows|
    ensures n == 0 <==> forall l :: l in rows ==> !Earns(db, kind, l, user, cutoff)
  {
    if rows == [] then 0
    else
      var init := rows[..|rows| - 1];
      var last := rows[|rows| - 1];
      assert rows == init + [last];
      Earning(db, kind, init, user, cutoff) + (if Earns(db, kind, last, user, cutoff) then 1 else 0)
  }

  /** The in-window likes of one kind credited to `user`. */
  function Received(db: Db, kind: Kind, user: int, cutoff: int): nat
  {
    Earning(db, kind, LikeTable(db, kind), user, cutoff)
  }

  // ---------------------------------------------------------------------------
  // Karma, as intended and as written
  // ---------------------------------------------------------------------------

  /**
   * One subquery's value: no row when nothing counts, so SQL NULL, otherwise
   * the count times the points of the kind.
   */
  function Subtotal(db: Db, kind: Kind, user: int, cutoff: int): (r: Option<int>)
    ensures r.None? <==> Received(db, kind, user, cutoff) == 0
  {
    var n := Received(db, kind, user, cutoff);
    if n == 0 then None else Some(n * Points(kind))
  }

  /** SQL `+`: NULL when either side is NULL. */
  function SqlAdd(a: Option<int>, b: Option<int>): (r: Option<int>)
    ensures r.Some? <==> a.Some? && b.Some?
  {
    match (a, b)
    case (Some(x), Some(y)) => Some(x + y)
    case _ => None
  }

  /** `Coalesce(x, 0)`. */
  function OrZero(a: Option<int>): int
  {
    match a
    case Some(x) => x
    case None => 0
  }

  /** The karma the code intends: a missing subtotal counts as zero. */
  function KarmaOf(db: Db, user: int, cutoff: int): int
  {
    OrZero(Subtotal(db, OnPost, user, cutoff)) + OrZero(Subtotal(db, OnComment, user, cutoff))
  }

  /**
   * The karma as the annotation computes it. The Python conditional tests
   * whether an `F` expression object is `None`, which it never is, so both
   * subquery values are added as they are.
   */
  function KarmaAsWritten(db: Db, user: int, cutoff: int): Option<int>
  {
    SqlAdd(Subtotal(db, OnPost, user, cutoff), Subtotal(db, OnComment, user, cutoff))
  }

  /** Karma is five per in-window post like plus one per in-window comment like. */
  lemma KarmaCounts(db: Db, user: int, cutoff: int)
    ensures KarmaOf(db, user, cutoff) ==
      5 * Received(db, OnPost, user, cutoff) + 1 * Received(db, OnComment, user, cutoff)
    ensures KarmaOf(db, user, cutoff) >= 0
    ensures KarmaOf(db, user, cutoff) == 0 <==>
      Received(db, OnPost, user, cutoff) == 0 && Received(db, OnComment, user, cutoff) == 0
  {
  }

  /**
   * As written, a user's karma is known only when both kinds of like were
   * received; then it agrees with the intended karma.
   */
  lemma AsWrittenKarma(db: Db, user: int, cutoff: int)
    ensures KarmaAsWritten(db, user, cutoff) ==
      if Received(db, OnPost, user, cutoff) > 0 && Received(db, OnComment, user, cutoff) > 0
      then Some(KarmaOf(db, user, cutoff)) else None
  {
    var np := Received(db, OnPost, user, cutoff);
    var nc := Received(db, OnComment, user, cutoff);
    if np > 0 && nc > 0 {
      assert Subtotal(db, OnPost, user, cutoff) == Some(np * 5);
      assert Subtotal(db, OnComment, user, cutoff) == Some(nc * 1);
    }
  }

  // ---------------------------------------------------------------------------
  // The window
  // ---------------------------------------------------------------------------

  /** One more like row changes exactly the karma of the author it credits, by that kind's points. */
  lemma AppendLike(db: Db, kind: Kind, l: Like, user: int, cutoff: int)
    ensures var db' := WithLikeTable(db, kind, LikeTable(db, kind) + [l]);
      KarmaOf(db', user, cutoff) ==
        KarmaOf(db, user, cutoff) + (if Earns(db, kind, l, user, cutoff) then Points(kind) else 0)
  {
    var rows := LikeTable(db, kind);
    var db' := WithLikeTable(db, kind, rows + [l]);
    assert (rows + [l])[..|rows|] == rows;
    assert TargetAuthor(db', kind, l.target) == TargetAuthor(db, kind, l.target);
    EarningSameTargets(db, db', kind, rows, user, cutoff);
    KarmaCounts(db, user, cutoff);
    KarmaCounts(db', user, cutoff);
    match kind
    case OnPost =>
      EarningSameTargets(db, db', OnComment, db.commentLikes, user, cutoff);
    case OnComment =>
      EarningSameTargets(db, db', OnPost, db.postLikes, user, cutoff);
  }

  /** Counting only looks at posts and comments, not at the like tables. */
  lemma {:induction false} EarningSameTargets(db: Db, db': Db, kind: Kind, rows: seq<Like>, user: int, cutoff: int)
    requires db'.posts == db.posts && db'.comments == db.comments
    ensures Earning(db', kind, rows, user, cutoff) == Earning(db, kind, rows, user, cutoff)
  {
    if rows != [] {
      EarningSameTargets(db, db', kind, rows[..|rows| - 1], user, cutoff);
    }
  }

  /** A like stamped exactly at the cutoff counts in full. */
  lemma LikeAtCutoffCounts(db: Db, kind: Kind, l: Like, user: int, now: int)
    requires l.createdAt == Cutoff(now) && TargetAuthor(db, kind, l.target) == Some(user)
    ensures var db' := WithLikeTable(db, kind, LikeTable(db, kind) + [l]);
      KarmaOf(db', user, Cutoff(now)) == KarmaOf(db, user, Cutoff(now)) + Points(kind)
  {
    AppendLike(db, kind, l, user, Cutoff(now));
  }

  /** A like stamped one second before the cutoff counts for nothing. */
  lemma LikeBeforeCutoffIgnored(db: Db, kind: Kind, l: Like, user: int, now: int)
    requires l.createdAt == Cutoff(now) - 1
    ensures var db' := WithLikeTable(db, kind, LikeTable(db, kind) + [l]);
      KarmaOf(db', user, Cutoff(now)) == KarmaOf(db, user, Cutoff(now))
  {
    AppendLike(db, kind, l, user, Cutoff(now));
  }

  // ---------------------------------------------------------------------------
  // Ranking
  // ---------------------------------------------------------------------------

  /** How many rows the response lists at most. */
  const TopCount: nat := 5

  /** The entries with positive karma (`filter(karma__gt=0)`). */
  function Positive(es: seq<Entry>): (r: seq<Entry>)
    ensures forall e :: e in r <==> e in es && e.karma > 0
    ensures multiset(r) <= multiset(es)
    ensures |r| <= |es|
  {
    if es == [] then []
    else
      assert es == [es[0]] + es[1..];
      (if es[0].karma > 0 then [es[0]] else []) + Positive(es[1..])
  }

  /** The sort key of `order_by('-karma')`. */
  function BestFirst(e: Entry): int
  {
    -e.karma
  }

  /**
   * `filter(karma__gt=0).order_by('-karma')[:5]`: at most five entries, all
   * positive, best first, and nobody left out beats the last one listed.
   */
  function Top(es: seq<Entry>): (r: seq<Entry>)
    ensures |r| == Min(TopCount, |Positive(es)|)
    ensures multiset(r) <= multiset(Positive(es))
    ensures forall e :: e in r ==> e in es && e.karma > 0
    ensures forall a, b :: 0 <= a < b < |r| ==> r[a].karma >= r[b].karma
    ensures forall e :: e in es && e.karma > 0 && e !in r ==> |r| == TopCount && e.karma <= r[TopCount - 1].karma
  {
    var sorted := SortBy(Positive(es), BestFirst);
    var r := sorted[..Min(TopCount, |sorted|)];
    PrefixOfSorted(Positive(es), sorted, r);
    forall e | e in es && e.karma > 0 && e !in r ensures |r| == TopCount && e.karma <= r[TopCount - 1].karma {
      LeftOutBelow(Positive(es), sorted, e);
    }
    r
  }

  /** The first entries of the sorted positives are positive, ordered and drawn from them. */
  lemma PrefixOfSorted(pos: seq<Entry>, sorted: seq<Entry>, r: seq<Entry>)
    requires SortedBy(sorted, BestFirst) && multiset(sorted) == multiset(pos)
    requires r == sorted[..Min(TopCount, |sorted|)]
    requires forall e :: e in pos ==> e.karma > 0
    ensures |r| == Min(TopCount, |pos|)
    ensures multiset(r) <= multiset(pos)
    ensures forall e :: e in r ==> e in pos
    ensures forall a, b :: 0 <= a < b < |r| ==> r[a].karma >= r[b].karma
  {
    assert |sorted| == |multiset(sorted)| == |pos|;
    assert sorted == r + sorted[|r|..];
    forall e | e in r ensures e in pos {
      assert e in multiset(sorted);
    }
    forall a, b | 0 <= a < b < |r| ensures r[a].karma >= r[b].karma {
      SortedAt(sorted, BestFirst, a, b);
    }
  }

  /** A positive entry past the first five sorts no higher than the fifth. */
  lemma LeftOutBelow(pos: seq<Entry>, sorted: seq<Entry>, e: Entry)
    requires SortedBy(sorted, BestFirst) && multiset(sorted) == multiset(pos)
    requires e in pos && e !in sorted[..Min(TopCount, |sorted|)]
    ensures |sorted| > TopCount && e.karma <= sorted[TopCount - 1].karma
  {
    assert e in multiset(sorted);
    var k :| 0 <= k < |sorted| && sorted[k] == e;
    SortedAt(sorted, BestFirst, TopCount - 1, k);
  }

  /** A user's intended row. */
  function ScoreOf(db: Db, now: int, u: User): Entry
  {
    Entry(u.id, u.username, KarmaOf(db, u.id, Cutoff(now)))
  }

  /** `e` is the intended row of a stored user. */
  predicate ScoreOfSomeUser(db: Db, now: int, e: Entry)
  {
    exists u :: u in db.users && e == ScoreOf(db, now, u)
  }

  /**
   * Every user's intended score, in the users' table order: five per
   * in-window like on their posts plus one per in-window like on their
   * comments.
   */
  function Scores(db: Db, now: int): (r: seq<Entry>)
    ensures |r| == |db.users|
    ensures forall i :: 0 <= i < |r| ==> r[i] == ScoreOf(db, now, db.users[i])
    ensures forall i :: 0 <= i < |r| ==>
      && r[i].id == db.users[i].id && r[i].username == db.users[i].username
      && r[i].karma == 5 * Received(db, OnPost, db.users[i].id, Cutoff(now))
                     + 1 * Received(db, OnComment, db.users[i].id, Cutoff(now))
  {
    var r := seq(|db.users|, i requires 0 <= i < |db.users| => ScoreOf(db, now, db.users[i]));
    forall i | 0 <= i < |r|
      ensures r[i].karma == 5 * Received(db, OnPost, db.users[i].id, Cutoff(now))
                          + 1 * Received(db, OnComment, db.users[i].id, Cutoff(now))
    {
      KarmaCounts(db, db.users[i].id, Cutoff(now));
    }
    r
  }

  /** The scores as written: users whose karma is NULL drop out before the filter. */
  function ScoresAsWritten(us: seq<User>, db: Db, now: int): (r: seq<Entry>)
    ensures forall e :: e in r ==> exists u :: u in us && e.id == u.id && KarmaAsWritten(db, u.id, Cutoff(now)) == Some(e.karma)
    ensures forall u :: u in us && KarmaAsWritten(db, u.id, Cutoff(now)).Some? ==>
      Entry(u.id, u.username, KarmaAsWritten(db, u.id, Cutoff(now)).value) in r
    ensures |r| <= |us|
  {
    if us == [] then []
    else
      var head := match KarmaAsWritten(db, us[0].id, Cutoff(now))
        case Some(k) => [Entry(us[0].id, us[0].username, k)]
        case None => [];
      assert us[0] in us;
      head + ScoresAsWritten(us[1..], db, now)
  }

  /** The response the endpoint is meant to give. */
  function Ranking(db: Db, now: int): seq<Entry>
  {
    Top(Scores(db, now))
  }

  /** The response the endpoint gives as written. */
  function RankingAsWritten(db: Db, now: int): seq<Entry>
  {
    Top(ScoresAsWritten(db.users, db, now))
  }

  /**
   * Every listed user is a stored user with their intended karma, and every
   * user with positive karma who is not listed has no more than the fifth.
   */
  lemma RankingSound(db: Db, now: int)
    ensures var r := Ranking(db, now);
      && |r| <= TopCount
      && (forall e :: e in r ==> e.karma > 0 && ScoreOfSomeUser(db, now, e))
      && (forall a, b :: 0 <= a < b < |r| ==> r[a].karma >= r[b].karma)
      && (forall u :: u in db.users && KarmaOf(db, u.id, Cutoff(now)) > 0 && ScoreOf(db, now, u) !in r ==>
            |r| == TopCount && KarmaOf(db, u.id, Cutoff(now)) <= r[TopCount - 1].karma)
  {
    RankedAreScored(db, now);
    UnlistedBelow(db, now);
  }

  lemma RankedAreScored(db: Db, now: int)
    ensures forall e :: e in Ranking(db, now) ==> ScoreOfSomeUser(db, now, e)
  {
    var s := Scores(db, now);
    forall e | e in Ranking(db, now) ensures ScoreOfSomeUser(db, now, e) {
      var i :| 0 <= i < |s| && s[i] == e;
      assert db.users[i] in db.users;
    }
  }

  lemma UnlistedBelow(db: Db, now: int)
    ensures var r := Ranking(db, now);
      forall u :: u in db.users && KarmaOf(db, u.id, Cutoff(now)) > 0 && ScoreOf(db, now, u) !in r ==>
        |r| == TopCount && KarmaOf(db, u.id, Cutoff(now)) <= r[TopCount - 1].karma
  {
    var s := Scores(db, now);
    var r := Ranking(db, now);
    forall u | u in db.users && KarmaOf(db, u.id, Cutoff(now)) > 0 && ScoreOf(db, now, u) !in r
      ensures |r| == TopCount && KarmaOf(db, u.id, Cutoff(now)) <= r[TopCount - 1].karma
    {
      var i :| 0 <= i < |db.users| && db.users[i] == u;
      assert s[i] in s;
    }
  }

  /**
   * As written, a user whose karma comes from one kind of like only is never
   * listed, although their intended karma is positive.
   */
  lemma AsWrittenOmitsSingleSource(db: Db, now: int, u: User)
    requires u in db.users
    requires (Received(db, OnPost, u.id, Cutoff(now)) == 0) != (Received(db, OnComment, u.id, Cutoff(now)) == 0)
    ensures KarmaOf(db, u.id, Cutoff(now)) > 0
    ensures forall e :: e in RankingAsWritten(db, now) ==> e.id != u.id
  {
    AsWrittenKarma(db, u.id, Cutoff(now));
    KarmaCounts(db, u.id, Cutoff(now));
    NullNotListed(db, now, u.id);
  }

  /** As written, a user whose karma is NULL is not listed. */
  lemma NullNotListed(db: Db, now: int, id: int)
    requires KarmaAsWritten(db, id, Cutoff(now)).None?
    ensures forall e :: e in RankingAsWritten(db, now) ==> e.id != id
  {
    var es := ScoresAsWritten(db.users, db, now);
    forall e | e in Top(es) ensures e.id != id {
      assert e in es;
    }
  }

  // ---------------------------------------------------------------------------
  // The karma fixture
  // ---------------------------------------------------------------------------

  /**
   * Three users; user 1 and user 2 each wrote a post; user 2 commented on
   * user 1's post; at `now` user 2 liked post 1, user 3 liked the comment
   * and user 3 liked post 2.
   */
  function Fixture(now: int): Db
  {
    var u1 := User(1, "user1");
    var u2 := User(2, "user2");
    var u3 := User(3, "user3");
    Db([u1, u2, u3],
       [Post(1, u1, "Post by user1", now), Post(2, u2, "Post by user2", now)],
       [Comment(1, 1, None, u2, "Comment by user2 on user1 post", now)],
       [Like(2, 1, now), Like(3, 2, now)],
       [Like(3, 1, now)])
  }

  /** On the fixture user 1 is meant to score 5, user 2 to score 6 and user 3 nothing. */
  lemma FixtureScores(now: int)
    ensures KarmaOf(Fixture(now), 1, Cutoff(now)) == 5
    ensures KarmaOf(Fixture(now), 2, Cutoff(now)) == 6
    ensures KarmaOf(Fixture(now), 3, Cutoff(now)) == 0
  {
    var db := Fixture(now);
    var c := Cutoff(now);
    FixturePostLikes(now);
    FixtureCommentLikes(now);
    KarmaCounts(db, 1, c);
    KarmaCounts(db, 2, c);
    KarmaCounts(db, 3, c);
  }

  /** As written user 1's karma is NULL. */
  lemma FixtureAsWritten(now: int)
    ensures KarmaAsWritten(Fixture(now), 1, Cutoff(now)).None?
    ensures KarmaAsWritten(Fixture(now), 2, Cutoff(now)) == Some(6)
  {
    var db := Fixture(now);
    var c := Cutoff(now);
    FixturePostLikes(now);
    FixtureCommentLikes(now);
    AsWrittenKarma(db, 1, c);
    AsWrittenKarma(db, 2, c);
  }

  /** ... so the leaderboard as written leaves user 1 out. */
  lemma FixtureRanking(now: int)
    ensures forall e :: e in RankingAsWritten(Fixture(now), now) ==> e.id != 1
  {
    FixturePostLikes(now);
    FixtureCommentLikes(now);
    FixtureUsers(now);
    AsWrittenOmitsSingleSource(Fixture(now), now, User(1, "user1"));
  }

  /** ... while user 2, liked on both a post and a comment, is listed with 6. */
  lemma FixtureListsUser2(now: int)
    ensures Entry(2, "user2", 6) in RankingAsWritten(Fixture(now), now)
  {
    FixtureAsWritten(now);
    assert User(2, "user2") in Fixture(now).users;
    ListedAsWritten(Fixture(now), now, User(2, "user2"));
  }

  /** With fewer than five users, everyone whose karma as written is positive is listed. */
  lemma ListedAsWritten(db: Db, now: int, u: User)
    requires u in db.users && |db.users| < TopCount
    requires KarmaAsWritten(db, u.id, Cutoff(now)).Some? && KarmaAsWritten(db, u.id, Cutoff(now)).value > 0
    ensures Entry(u.id, u.username, KarmaAsWritten(db, u.id, Cutoff(now)).value) in RankingAsWritten(db, now)
  {
    var es := ScoresAsWritten(db.users, db, now);
    TopKeepsWhenFew(es, Entry(u.id, u.username, KarmaAsWritten(db, u.id, Cutoff(now)).value));
  }

  /** Fewer than five entries: every positive one is listed. */
  lemma TopKeepsWhenFew(es: seq<Entry>, e: Entry)
    requires e in es && e.karma > 0 && |es| < TopCount
    ensures e in Top(es)
  {
    assert |Positive(es)| < TopCount;
  }

  lemma FixtureUsers(now: int)
    ensures User(1, "user1") in Fixture(now).users
  {
    var us := Fixture(now).users;
    assert us[0] == User(1, "user1");
  }

  lemma FixturePostLikes(now: int)
    ensures Received(Fixture(now), OnPost, 1, Cutoff(now)) == 1
    ensures Received(Fixture(now), OnPost, 2, Cutoff(now)) == 1
    ensures Received(Fixture(now), OnPost, 3, Cutoff(now)) == 0
  {
    var db := Fixture(now);
    var c := Cutoff(now);
    assert db.postLikes[..1] == [Like(2, 1, now)];
    assert db.postLikes[..1][..0] == [];
    assert PostAuthor(db.posts, 1) == Some(1);
    assert PostAuthor(db.posts, 2) == Some(2);
    assert Earning(db, OnPost, db.postLikes[..1], 1, c) == 1;
    assert Earning(db, OnPost, db.postLikes[..1], 2, c) == 0;
    assert Earning(db, OnPost, db.postLikes[..1], 3, c) == 0;
  }

  lemma FixtureCommentLikes(now: int)
    ensures Received(Fixture(now), OnComment, 1, Cutoff(now)) == 0
    ensures Received(Fixture(now), OnComment, 2, Cutoff(now)) == 1
    ensures Received(Fixture(now), OnComment, 3, Cutoff(now)) == 0
  {
    var db := Fixture(now);
    assert db.commentLikes[..0] == [];
    assert CommentAuthor(db.comments, 1) == Some(2);
  }

  /**
   * On the window fixture (user 1 liked post 2 one second before the cutoff,
   * user 2 liked post 1 at `now`) only the in-window like counts, and it is
   * credited to the author of post 1.
   */
  lemma WindowFixture(now: int)
    ensures var db := Fixture(now).(postLikes := [Like(1, 2, Cutoff(now) - 1), Like(2, 1, now)], commentLikes := []);
      && KarmaOf(db, 1, Cutoff(now)) == 5
      && KarmaOf(db, 2, Cutoff(now)) == 0
  {
    var db := Fixture(now).(postLikes := [Like(1, 2, Cutoff(now) - 1), Like(2, 1, now)], commentLikes := []);
    var c := Cutoff(now);
    assert db.postLikes[..1] == [Like(1, 2, c - 1)];
    assert db.postLikes[..1][..0] == [];
    assert PostAuthor(db.posts, 1) == Some(1);
    assert PostAuthor(db.posts, 2) == Some(2);
    assert Earning(db, OnPost, db.postLikes[..1], 1, c) == 0;
    assert Earning(db, OnPost, db.postLikes[..1], 2, c) == 0;
    assert Received(db, OnPost, 1, c) == 1;
    assert Received(db, OnPost, 2, c) == 0;
    assert Received(db, OnComment, 1, c) == 0;
    assert Received(db, OnComment, 2, c) == 0;
  }
}
