/**
 * The like endpoints of posts and comments: one request toggles the caller's
 * like on a target and reports the new state, the target's like count and
 * the karma the target's author gains or loses.
 */
module LikeToggle {
  import opened Wrappers
  import opened Karma
  import opened Models

  /** What one request leaves in the table and reports back. */
  datatype Outcome = Outcome(rows: seq<Like>, liked: bool, likeCount: nat, karmaEarned: int)

  /** `get_object()` found no row with the requested primary key. */
  datatype NotFound = NotFound

  // ---------------------------------------------------------------------------
  // Like rows under concatenation
  // ---------------------------------------------------------------------------

  lemma SeqAssoc<T>(x: seq<T>, y: seq<T>, z: seq<T>)
    ensures x + (y + z) == (x + y) + z
  {
  }

  lemma {:induction false} RowsForAppend(a: seq<Like>, b: seq<Like>, target: int)
    ensures RowsFor(a + b, target) == RowsFor(a, target) + RowsFor(b, target)
  {
    if a == [] {
      assert a + b == b;
    } else {
      assert (a + b)[0] == a[0] && (a + b)[1..] == a[1..] + b;
      RowsForAppend(a[1..], b, target);
      if a[0].target == target {
        assert RowsFor(a + b, target) == [a[0]] + RowsFor(a[1..] + b, target);
        assert RowsFor(a, target) == [a[0]] + RowsFor(a[1..], target);
        SeqAssoc([a[0]], RowsFor(a[1..], target), RowsFor(b, target));
      } else {
        assert RowsFor(a + b, target) == RowsFor(a[1..] + b, target);
        assert RowsFor(a, target) == RowsFor(a[1..], target);
      }
    }
  }

  lemma {:induction false} PairCountAppend(a: seq<Like>, b: seq<Like>, user: int, target: int)
    ensures PairCount(a + b, user, target) == PairCount(a, user, target) + PairCount(b, user, target)
  {
    if a == [] {
      assert a + b == b;
    } else {
      assert (a + b)[0] == a[0] && (a + b)[1..] == a[1..] + b;
      PairCountAppend(a[1..], b, user, target);
      if IsPair(a[0], user, target) {
        assert PairCount(a + b, user, target) == 1 + PairCount(a[1..] + b, user, target);
        assert PairCount(a, user, target) == 1 + PairCount(a[1..], user, target);
      } else {
        assert PairCount(a + b, user, target) == PairCount(a[1..] + b, user, target);
        assert PairCount(a, user, target) == PairCount(a[1..], user, target);
      }
    }
  }

  lemma {:induction false} OtherPairsAppend(a: seq<Like>, b: seq<Like>, user: int, target: int)
    ensures OtherPairs(a + b, user, target) == OtherPairs(a, user, target) + OtherPairs(b, user, target)
  {
    if a == [] {
      assert a + b == b;
    } else {
      assert (a + b)[0] == a[0] && (a + b)[1..] == a[1..] + b;
      OtherPairsAppend(a[1..], b, user, target);
      if IsPair(a[0], user, target) {
        assert OtherPairs(a + b, user, target) == OtherPairs(a[1..] + b, user, target);
        assert OtherPairs(a, user, target) == OtherPairs(a[1..], user, target);
      } else {
        assert OtherPairs(a + b, user, target) == [a[0]] + OtherPairs(a[1..] + b, user, target);
        assert OtherPairs(a, user, target) == [a[0]] + OtherPairs(a[1..], user, target);
        SeqAssoc([a[0]], OtherPairs(a[1..], user, target), OtherPairs(b, user, target));
      }
    }
  }

  /** Appending a row of the pair adds one to the target's count and leaves every other pair as it was. */
  lemma AppendPair(rows: seq<Like>, l: Like, user: int, target: int)
    requires IsPair(l, user, target)
    ensures LikeCount(rows + [l], target) == LikeCount(rows, target) + 1
    ensures PairCount(rows + [l], user, target) == PairCount(rows, user, target) + 1
    ensures OtherPairs(rows + [l], user, target) == OtherPairs(rows, user, target)
  {
    RowsForAppend(rows, [l], target);
    PairCountAppend(rows, [l], user, target);
    OtherPairsAppend(rows, [l], user, target);
    assert [l][1..] == [];
  }

  /** Deleting the only row of the pair undoes appending it. */
  lemma {:induction false} DeleteAppended(rows: seq<Like>, l: Like, user: int, target: int)
    requires IsPair(l, user, target) && !HasPair(rows, user, target)
    ensures DeleteFirst(rows + [l], user, target) == rows
  {
    if rows != [] {
      assert rows[0] in rows;
      assert (rows + [l])[1..] == rows[1..] + [l];
      assert !HasPair(rows[1..], user, target) by {
        forall k | k in rows[1..] ensures !IsPair(k, user, target) {
          assert k in rows;
        }
      }
      DeleteAppended(rows[1..], l, user, target);
    }
  }

  // ---------------------------------------------------------------------------
  // One request
  // ---------------------------------------------------------------------------

  /** What deleting the caller's row does to the table. */
  lemma UnlikeFacts(rows: seq<Like>, user: int, target: int)
    requires HasPair(rows, user, target)
    ensures var rows' := DeleteFirst(rows, user, target);
      && LikeCount(rows', target) == LikeCount(rows, target) - 1
      && OtherPairs(rows', user, target) == OtherPairs(rows, user, target)
      && (UniquePairs(rows) ==> UniquePairs(rows') && PairCount(rows', user, target) == 0)
  {
    var rows' := DeleteFirst(rows, user, target);
    if UniquePairs(rows) {
      UniquePairCount(rows, user, target);
      DeleteKeepsUnique(rows, user, target);
    }
  }

  /** What appending a row of the caller's pair does to a table without one. */
  lemma LikeFacts(rows: seq<Like>, l: Like, user: int, target: int)
    requires IsPair(l, user, target) && !HasPair(rows, user, target)
    ensures var rows' := rows + [l];
      && HasPair(rows', user, target)
      && LikeCount(rows', target) == LikeCount(rows, target) + 1
      && OtherPairs(rows', user, target) == OtherPairs(rows, user, target)
      && (UniquePairs(rows) ==> UniquePairs(rows') && PairCount(rows', user, target) == 1)
  {
    AppendPair(rows, l, user, target);
    AppendKeepsUnique(rows, l);
    assert l in rows + [l];
  }

  /** Removing one row of a pair from a table with unique pairs keeps them unique. */
  lemma {:induction false} DeleteKeepsUnique(rows: seq<Like>, user: int, target: int)
    requires UniquePairs(rows)
    ensures UniquePairs(DeleteFirst(rows, user, target))
  {
    if rows != [] {
      assert rows == [rows[0]] + rows[1..];
      ConsUnique(rows[0], rows[1..]);
      if !IsPair(rows[0], user, target) {
        var rest := DeleteFirst(rows[1..], user, target);
        DeleteKeepsUnique(rows[1..], user, target);
        assert !HasPair(rest, rows[0].user, rows[0].target) by {
          forall l | l in rest ensures !IsPair(l, rows[0].user, rows[0].target) {
            assert l in rows[1..];
          }
        }
        ConsUnique(rows[0], rest);
      }
    }
  }

  /**
   * The toggle on one like table. If the caller's row exists it is deleted;
   * otherwise a row stamped `now` is inserted. `racer` is the timestamp of
   * the same caller's row when a concurrent request committed it between
   * this request's check and its insert; the insert then fails with
   * `IntegrityError` and the request still reports the like as made.
   */
  function Toggle(kind: Kind, rows: seq<Like>, user: int, target: int, now: int, racer: Option<int>): (o: Outcome)
    ensures o.likeCount == LikeCount(o.rows, target)
    ensures o.liked <==> !HasPair(rows, user, target)
    ensures o.liked ==> HasPair(o.rows, user, target)
    ensures o.karmaEarned == if o.liked then Points(kind) else -Points(kind)
    ensures OtherPairs(o.rows, user, target) == OtherPairs(rows, user, target)
    ensures o.likeCount == if o.liked then LikeCount(rows, target) + 1 else LikeCount(rows, target) - 1
    ensures UniquePairs(rows) ==> UniquePairs(o.rows) && PairCount(o.rows, user, target) == if o.liked then 1 else 0
    ensures o.liked && racer.None? ==> o.rows == rows + [Like(user, target, now)]
    ensures o.liked && racer.Some? ==> o.rows == rows + [Like(user, target, racer.value)]
  {
    if HasPair(rows, user, target) then
      var rows' := DeleteFirst(rows, user, target);
      UnlikeFacts(rows, user, target);
      Outcome(rows', false, LikeCount(rows', target), -Points(kind))
    else
      var mine := Like(user, target, now);
      var atInsert := match racer
        case None => rows
        case Some(t) => rows + [Like(user, target, t)];
      match InsertLike(atInsert, mine)
      case Ok(rows') =>
        LikeFacts(rows, mine, user, target);
        Outcome(rows', true, LikeCount(rows', target), Points(kind))
      case Err(_) =>
        LikeFacts(rows, Like(user, target, racer.value), user, target);
        Outcome(atInsert, true, LikeCount(atInsert, target), Points(kind))
  }

  /**
   * The endpoint over the whole snapshot: `get_object()` answers 404 when the
   * target does not exist, otherwise the toggle runs on the matching table.
   */
  function LikeAction(db: Db, kind: Kind, user: int, target: int, now: int, racer: Option<int>)
    : (r: Result<(Db, Outcome), NotFound>)
    ensures r.Err? <==> !TargetExists(db, kind, target)
    ensures r.Ok? ==> var (db', o) := r.value;
      && LikeTable(db', kind) == o.rows
      && db'.users == db.users && db'.posts == db.posts && db'.comments == db.comments
      && (kind == OnPost ==> db'.commentLikes == db.commentLikes)
      && (kind == OnComment ==> db'.postLikes == db.postLikes)
      && (o.liked <==> !HasPair(LikeTable(db, kind), user, target))
      && o.likeCount == LikeCount(o.rows, target)
  {
    if !TargetExists(db, kind, target) then Err(NotFound)
    else
      var o := Toggle(kind, LikeTable(db, kind), user, target, now, racer);
      Ok((WithLikeTable(db, kind, o.rows), o))
  }

  // ---------------------------------------------------------------------------
  // Properties across requests
  // ---------------------------------------------------------------------------

  /**
   * A successful request by a stored user keeps every schema guarantee of the
   * snapshot.
   */
  lemma LikeActionKeepsValid(db: Db, kind: Kind, user: int, target: int, now: int, racer: Option<int>)
    requires Valid(db) && UserExists(db, user)
    requires LikeAction(db, kind, user, target, now, racer).Ok?
    ensures Valid(LikeAction(db, kind, user, target, now, racer).value.0)
  {
    var rows := LikeTable(db, kind);
    var o := Toggle(kind, rows, user, target, now, racer);
    assert UniquePairs(rows);
    ToggledRows(rows, o.rows, user, target);
    forall l | l in o.rows ensures UserExists(db, l.user) && TargetExists(db, kind, l.target) {
      if !IsPair(l, user, target) {
        assert l in rows;
      }
    }
    ReplaceTableValid(db, kind, o.rows);
  }

  /** Replacing one like table by a unique table of rows with existing users and targets keeps the snapshot valid. */
  lemma ReplaceTableValid(db: Db, kind: Kind, rows': seq<Like>)
    requires Valid(db) && UniquePairs(rows')
    requires forall l :: l in rows' ==> UserExists(db, l.user) && TargetExists(db, kind, l.target)
    ensures Valid(WithLikeTable(db, kind, rows'))
  {
    var db' := WithLikeTable(db, kind, rows');
    forall k: Kind ensures UniquePairs(LikeTable(db', k)) {
      if k != kind {
        assert LikeTable(db', k) == LikeTable(db, k);
      }
    }
    forall k: Kind, l | l in LikeTable(db', k)
      ensures UserExists(db', l.user) && TargetExists(db', k, l.target)
    {
      if k != kind {
        assert LikeTable(db', k) == LikeTable(db, k);
      }
    }
  }

  /** After a toggle every row is the caller's row for the target or an old row. */
  lemma ToggledRows(rows: seq<Like>, rows': seq<Like>, user: int, target: int)
    requires OtherPairs(rows', user, target) == OtherPairs(rows, user, target)
    ensures forall l :: l in rows' ==> IsPair(l, user, target) || l in rows
  {
    forall l | l in rows' && !IsPair(l, user, target) ensures l in rows {
      assert l in OtherPairs(rows', user, target);
    }
  }

  /**
   * Liking and then unliking leaves the table as it was; the counts reported
   * are one more and then exactly the original, and the karma cancels out.
   */
  lemma LikeThenUnlike(kind: Kind, rows: seq<Like>, user: int, target: int, t1: int, t2: int)
    requires !HasPair(rows, user, target)
    ensures var o1 := Toggle(kind, rows, user, target, t1, None);
      var o2 := Toggle(kind, o1.rows, user, target, t2, None);
      && o1.liked && !o2.liked
      && o2.rows == rows
      && o1.likeCount == LikeCount(rows, target) + 1
      && o2.likeCount == LikeCount(rows, target)
      && o1.karmaEarned + o2.karmaEarned == 0
  {
    DeleteAppended(rows, Like(user, target, t1), user, target);
  }

  /**
   * Two requests by the same caller that both find no like: the first
   * inserts, the second's insert is rejected. Both report a like, the same
   * count and the same single row.
   */
  lemma ConcurrentLikes(kind: Kind, rows: seq<Like>, user: int, target: int, t1: int, t2: int)
    requires UniquePairs(rows) && !HasPair(rows, user, target)
    ensures var o1 := Toggle(kind, rows, user, target, t1, None);
      var o2 := Toggle(kind, rows, user, target, t2, Some(t1));
      && o1.liked && o2.liked
      && o2.rows == o1.rows
      && o1.likeCount == o2.likeCount
      && PairCount(o2.rows, user, target) == 1
      && o1.karmaEarned == o2.karmaEarned == Points(kind)
  {
  }
}
