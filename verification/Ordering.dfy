/**
 * The default orderings of the models (posts newest first, comments oldest
 * first) and the comment fetch that feeds the tree builder.
 */
module Ordering {
  import opened Wrappers
  import opened Models
  import opened CommentTree

  /** `s` is in non-decreasing order of `key`. */
  predicate SortedBy<T>(s: seq<T>, key: T -> int)
  {
    forall a, b :: 0 <= a < b < |s| ==> key(s[a]) <= key(s[b])
  }

  lemma SortedAt<T>(s: seq<T>, key: T -> int, a: nat, b: nat)
    requires SortedBy(s, key) && a <= b < |s|
    ensures key(s[a]) <= key(s[b])
  {
  }

  /** Puts `x` before the first element whose key is not smaller than its own. */
  function Insert<T>(x: T, s: seq<T>, key: T -> int): (r: seq<T>)
    requires SortedBy(s, key)
    ensures SortedBy(r, key)
    ensures multiset(r) == multiset(s) + multiset{x}
    decreases |s|
  {
    if s == [] then [x]
    else if key(x) <= key(s[0]) then [x] + s
    else
      var rest := Insert(x, s[1..], key);
      assert s == [s[0]] + s[1..];
      InsertBound(x, s, rest, key);
      ConsSorted(s[0], rest, key);
      [s[0]] + rest
  }

  /** What the recursive insert returns stays at or above the head it goes behind. */
  lemma InsertBound<T>(x: T, s: seq<T>, rest: seq<T>, key: T -> int)
    requires s != [] && SortedBy(s, key) && key(s[0]) < key(x)
    requires multiset(rest) == multiset(s[1..]) + multiset{x}
    ensures forall y :: y in rest ==> key(s[0]) <= key(y)
  {
    forall y | y in rest ensures key(s[0]) <= key(y) {
      assert y in multiset(rest);
      if y != x {
        assert y in s[1..];
        var k :| 0 <= k < |s[1..]| && s[1..][k] == y;
        assert s[k + 1] == y;
      }
    }
  }

  lemma ConsSorted<T>(h: T, t: seq<T>, key: T -> int)
    requires SortedBy(t, key) && forall y :: y in t ==> key(h) <= key(y)
    ensures SortedBy([h] + t, key)
  {
    var u := [h] + t;
    forall a, b | 0 <= a < b < |u| ensures key(u[a]) <= key(u[b]) {
      assert u[b] == t[b - 1];
      if a == 0 {
        assert t[b - 1] in t;
      } else {
        assert u[a] == t[a - 1];
      }
    }
  }

  /** `order_by(key)`: a permutation of `s` in non-decreasing key order. */
  function SortBy<T>(s: seq<T>, key: T -> int): (r: seq<T>)
    ensures SortedBy(r, key)
    ensures multiset(r) == multiset(s)
  {
    if s == [] then []
    else
      assert s == [s[0]] + s[1..];
      Insert(s[0], SortBy(s[1..], key), key)
  }

  // ---------------------------------------------------------------------------
  // The models' orderings
  // ---------------------------------------------------------------------------

  /** The sort key of `ordering = ['created_at']`. */
  function OldestFirst(c: Comment): int
  {
    c.createdAt
  }

  /** The sort key of `ordering = ['-created_at']`. */
  function NewestFirst(p: Post): int
  {
    -p.createdAt
  }

  /** The post list: every post once, newest first. */
  function Feed(db: Db): (r: seq<Post>)
    ensures multiset(r) == multiset(db.posts)
    ensures forall a, b :: 0 <= a < b < |r| ==> r[a].createdAt >= r[b].createdAt
  {
    var r := SortBy(db.posts, NewestFirst);
    assert forall a, b :: 0 <= a < b < |r| ==> r[a].createdAt >= r[b].createdAt by {
      forall a, b | 0 <= a < b < |r| ensures r[a].createdAt >= r[b].createdAt {
        SortedAt(r, NewestFirst, a, b);
      }
    }
    r
  }

  /** `post.comments`: the comments of one post, in table order. */
  function PostComments(cs: seq<Comment>, post: int): (r: seq<Comment>)
    ensures forall c :: c in r <==> c in cs && c.post == post
    ensures multiset(r) <= multiset(cs)
  {
    if cs == [] then []
    else
      assert cs == [cs[0]] + cs[1..];
      (if cs[0].post == post then [cs[0]] else []) + PostComments(cs[1..], post)
  }

  /** The fetch at the start of the tree builder: the post's comments, oldest first. */
  function FetchThread(cs: seq<Comment>, post: int): (r: seq<Comment>)
    ensures forall c :: c in r <==> c in cs && c.post == post
    ensures multiset(r) == multiset(PostComments(cs, post))
    ensures forall a, b :: 0 <= a < b < |r| ==> r[a].createdAt <= r[b].createdAt
  {
    var r := SortBy(PostComments(cs, post), OldestFirst);
    OldestFirstSorted(r);
    SameMembers(r, PostComments(cs, post));
    r
  }

  lemma OldestFirstSorted(r: seq<Comment>)
    requires SortedBy(r, OldestFirst)
    ensures forall a, b :: 0 <= a < b < |r| ==> r[a].createdAt <= r[b].createdAt
  {
    forall a, b | 0 <= a < b < |r| ensures r[a].createdAt <= r[b].createdAt {
      SortedAt(r, OldestFirst, a, b);
    }
  }

  /** Sequences with the same multiset have the same members. */
  lemma SameMembers<T>(r: seq<T>, s: seq<T>)
    requires multiset(r) == multiset(s)
    ensures forall x :: x in r <==> x in s
  {
    forall x ensures x in r <==> x in s {
      assert x in r <==> x in multiset(r);
      assert x in s <==> x in multiset(s);
    }
  }

  // ---------------------------------------------------------------------------
  // The fetch meets the builder's precondition
  // ---------------------------------------------------------------------------

  /** Every reply carries a later timestamp than the comment it answers. */
  predicate RepliesAfterParents(cs: seq<Comment>)
  {
    forall i, j :: 0 <= i < |cs| && 0 <= j < |cs| && cs[j].parent == Some(cs[i].id) ==>
      cs[i].createdAt < cs[j].createdAt
  }

  lemma {:induction false} DistinctCounts(cs: seq<Comment>, x: Comment)
    requires DistinctIds(cs)
    ensures multiset(cs)[x] <= 1
  {
    if cs != [] {
      assert DistinctIds(cs[1..]) by {
        forall a, b | 0 <= a < b < |cs[1..]| ensures cs[1..][a].id != cs[1..][b].id {
          assert cs[1..][a] == cs[a + 1] && cs[1..][b] == cs[b + 1];
        }
      }
      DistinctCounts(cs[1..], x);
      assert cs == [cs[0]] + cs[1..];
    }
  }

  lemma RepeatCounts<T>(s: seq<T>, a: nat, b: nat)
    requires a < b < |s| && s[a] == s[b]
    ensures multiset(s)[s[a]] >= 2
  {
    assert s == s[..b] + [s[b]] + s[b + 1..];
    assert s[..b][a] == s[a];
    assert s[a] in multiset(s[..b]);
  }

  /** Distinct ids carry over to any rearrangement of a sub-multiset. */
  lemma DistinctIdsOfSub(cs: seq<Comment>, r: seq<Comment>)
    requires DistinctIds(cs) && multiset(r) <= multiset(cs)
    ensures DistinctIds(r)
  {
    forall a, b | 0 <= a < b < |r| ensures r[a].id != r[b].id {
      assert r[a] in multiset(cs) && r[b] in multiset(cs);
      var i :| 0 <= i < |cs| && cs[i] == r[a];
      var j :| 0 <= j < |cs| && cs[j] == r[b];
      if r[a] == r[b] {
        RepeatCounts(r, a, b);
        DistinctCounts(cs, r[a]);
      }
    }
  }

  /**
   * When replies are stamped after their parents, the fetched thread lists
   * each parent before its replies, which is the builder's precondition.
   */
  lemma ThreadIsFetched(cs: seq<Comment>, post: int)
    requires DistinctIds(cs) && RepliesAfterParents(cs)
    ensures Fetched(FetchThread(cs, post))
  {
    var r := FetchThread(cs, post);
    DistinctIdsOfSub(cs, r);
    forall i, j | 0 <= i < |r| && 0 <= j < |r| && r[j].parent == Some(r[i].id) ensures i < j {
      assert r[i] in r && r[j] in r;
      ParentEarlier(cs, r[i], r[j]);
      EarlierFirst(r, i, j);
    }
  }

  /** In a list sorted by `created_at`, a strictly older element comes first. */
  lemma EarlierFirst(r: seq<Comment>, i: nat, j: nat)
    requires forall a, b :: 0 <= a < b < |r| ==> r[a].createdAt <= r[b].createdAt
    requires i < |r| && j < |r| && r[i].createdAt < r[j].createdAt
    ensures i < j
  {
  }

  lemma ParentEarlier(cs: seq<Comment>, p: Comment, c: Comment)
    requires RepliesAfterParents(cs) && p in cs && c in cs && c.parent == Some(p.id)
    ensures p.createdAt < c.createdAt
  {
    var a :| 0 <= a < |cs| && cs[a] == p;
    var b :| 0 <= b < |cs| && cs[b] == c;
  }
}
