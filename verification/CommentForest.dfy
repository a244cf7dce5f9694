/**
 * What the serialised comment forest contains: which comments appear, where,
 * how often, and with which fields.
 */
module CommentForest {
  import opened Wrappers
  import opened Models
  import opened Thread
  import opened CommentTree

  /** Every node of a forest in pre-order: a node, then its replies' subtrees. */
  function Flatten(ns: seq<Node>): seq<Node>
  {
    if ns == [] then [] else [ns[0]] + Flatten(ns[0].replies) + Flatten(ns[1..])
  }

  /** The ids of a forest in pre-order. */
  function Preorder(ns: seq<Node>): seq<int>
  {
    var flat := Flatten(ns);
    seq(|flat|, t requires 0 <= t < |flat| => flat[t].id)
  }

  /** The comments are listed oldest first. */
  predicate CreatedAscending(cs: seq<Comment>)
  {
    forall a, b :: 0 <= a < b < |cs| ==> cs[a].createdAt <= cs[b].createdAt
  }

  // ---------------------------------------------------------------------------
  // Roots and replies
  // ---------------------------------------------------------------------------

  /**
   * The forest's trees are exactly the top-level comments, each once, and in
   * creation order when the list is.
   */
  lemma RootsAreTopLevel(cs: seq<Comment>, likes: seq<Like>, viewer: Option<int>)
    requires Fetched(cs)
    ensures var f := Forest(cs, likes, viewer);
      && (forall m :: 0 <= m < |f| ==> f[m].parent.None?)
      && (forall j :: 0 <= j < |cs| ==>
            (cs[j].parent.None? <==> exists m :: 0 <= m < |f| && f[m].id == cs[j].id))
      && (forall a, b :: 0 <= a < b < |f| ==> f[a].id != f[b].id)
      && (CreatedAscending(cs) ==> forall a, b :: 0 <= a < b < |f| ==> f[a].createdAt <= f[b].createdAt)
  {
    var f := Forest(cs, likes, viewer);
    var rs := Roots(cs);
    forall j | 0 <= j < |cs| && cs[j].parent.None?
      ensures exists m :: 0 <= m < |f| && f[m].id == cs[j].id
    {
      assert j in rs;
      var m :| 0 <= m < |rs| && rs[m] == j;
      assert f[m].id == cs[j].id;
    }
  }

  /** The fields of the subtree of comment `i`, as its record and the like table give them. */
  lemma ProjectShape(cs: seq<Comment>, likes: seq<Like>, viewer: Option<int>, i: nat)
    requires Fetched(cs) && i < |cs|
    ensures var n := Project(cs, likes, viewer, i);
      && n.id == cs[i].id && n.post == cs[i].post && n.parent == cs[i].parent
      && n.author == cs[i].author && n.content == cs[i].content && n.createdAt == cs[i].createdAt
      && n.likeCount == LikeCount(likes, cs[i].id)
      && n.userHasLiked == HasLiked(viewer, likes, cs[i].id)
      && n.replies == Projs(cs, likes, viewer, Kids(cs, i))
  {
  }

  /**
   * The replies of comment `i` are exactly the comments whose parent is `i`,
   * each once, and in creation order when the list is.
   */
  lemma RepliesAreChildren(cs: seq<Comment>, likes: seq<Like>, viewer: Option<int>, i: nat)
    requires Fetched(cs) && i < |cs|
    ensures var n := Project(cs, likes, viewer, i);
      && (forall m :: 0 <= m < |n.replies| ==> n.replies[m].parent == Some(n.id))
      && (forall j :: 0 <= j < |cs| ==>
            (cs[j].parent == Some(n.id) <==> exists m :: 0 <= m < |n.replies| && n.replies[m].id == cs[j].id))
      && (forall a, b :: 0 <= a < b < |n.replies| ==> n.replies[a].id != n.replies[b].id)
      && (CreatedAscending(cs) ==>
            forall a, b :: 0 <= a < b < |n.replies| ==> n.replies[a].createdAt <= n.replies[b].createdAt)
  {
    ProjectShape(cs, likes, viewer, i);
    var ks := Kids(cs, i);
    var rs := Projs(cs, likes, viewer, ks);
    forall m | 0 <= m < |rs|
      ensures rs[m].id == cs[ks[m]].id && rs[m].parent == cs[ks[m]].parent
      ensures rs[m].createdAt == cs[ks[m]].createdAt
    {
      ProjectShape(cs, likes, viewer, ks[m]);
    }
    forall j | 0 <= j < |cs| && cs[j].parent == Some(cs[i].id)
      ensures exists m :: 0 <= m < |rs| && rs[m].id == cs[j].id
    {
      assert j in ks;
      var m :| 0 <= m < |ks| && ks[m] == j;
      assert rs[m].id == cs[j].id;
    }
    forall j | 0 <= j < |cs| && (exists m :: 0 <= m < |rs| && rs[m].id == cs[j].id)
      ensures cs[j].parent == Some(cs[i].id)
    {
      var m :| 0 <= m < |rs| && rs[m].id == cs[j].id;
      assert ks[m] in ks;
      assert ks[m] == j;
    }
  }

  // ---------------------------------------------------------------------------
  // Pre-order over indices
  // ---------------------------------------------------------------------------

  /** The indices of the subtree of comment `i` in pre-order. */
  function PreIdx(cs: seq<Comment>, i: nat): (r: seq<nat>)
    requires Fetched(cs) && i < |cs|
    ensures forall t :: 0 <= t < |r| ==> i <= r[t] < |cs|
    decreases |cs| - i, 1
  {
    [i] + PreAll(cs, Kids(cs, i), i)
  }

  /** The pre-order indices of the subtrees of `ks`, one after another; all of `ks` lie above `lo`. */
  function PreAll(cs: seq<Comment>, ks: seq<nat>, lo: int): (r: seq<nat>)
    requires Fetched(cs) && lo >= -1
    requires forall m :: 0 <= m < |ks| ==> lo < ks[m] < |cs|
    ensures forall t :: 0 <= t < |r| ==> lo < r[t] < |cs|
    decreases |cs| - lo, 0, |ks|
  {
    if ks == [] then [] else PreIdx(cs, ks[0]) + PreAll(cs, ks[1..], lo)
  }

  lemma ProjsAppend(cs: seq<Comment>, likes: seq<Like>, viewer: Option<int>, a: seq<nat>, b: seq<nat>)
    requires Fetched(cs)
    requires forall m :: 0 <= m < |a| ==> a[m] < |cs|
    requires forall m :: 0 <= m < |b| ==> b[m] < |cs|
    ensures Projs(cs, likes, viewer, a + b) == Projs(cs, likes, viewer, a) + Projs(cs, likes, viewer, b)
  {
  }

  /** Flattening the subtrees of `ks` lists the subtrees of their pre-order indices. */
  lemma {:induction false} FlattenProjs(cs: seq<Comment>, likes: seq<Like>, viewer: Option<int>,
                                        ks: seq<nat>, lo: int)
    requires Fetched(cs) && lo >= -1
    requires forall m :: 0 <= m < |ks| ==> lo < ks[m] < |cs|
    ensures Flatten(Projs(cs, likes, viewer, ks)) == Projs(cs, likes, viewer, PreAll(cs, ks, lo))
    decreases |cs| - lo, |ks|
  {
    if ks != [] {
      FlattenProjs(cs, likes, viewer, Kids(cs, ks[0]), ks[0]);
      FlattenProjs(cs, likes, viewer, ks[1..], lo);
      FlattenCons(cs, likes, viewer, ks, lo);
    }
  }

  /** The step of `FlattenProjs`: the first subtree, then the others. */
  lemma FlattenCons(cs: seq<Comment>, likes: seq<Like>, viewer: Option<int>, ks: seq<nat>, lo: int)
    requires Fetched(cs) && lo >= -1 && ks != []
    requires forall m :: 0 <= m < |ks| ==> lo < ks[m] < |cs|
    requires Flatten(Projs(cs, likes, viewer, Kids(cs, ks[0]))) == Projs(cs, likes, viewer, PreAll(cs, Kids(cs, ks[0]), ks[0]))
    requires Flatten(Projs(cs, likes, viewer, ks[1..])) == Projs(cs, likes, viewer, PreAll(cs, ks[1..], lo))
    ensures Flatten(Projs(cs, likes, viewer, ks)) == Projs(cs, likes, viewer, PreAll(cs, ks, lo))
  {
    var k0 := ks[0];
    var ps := Projs(cs, likes, viewer, ks);
    var inner := PreAll(cs, Kids(cs, k0), k0);
    var rest := PreAll(cs, ks[1..], lo);
    ProjsCons(cs, likes, viewer, ks);
    RepliesOf(cs, likes, viewer, k0);
    FlattenCons3(ps, Projs(cs, likes, viewer, inner), Projs(cs, likes, viewer, rest));
    ProjsCons3(cs, likes, viewer, k0, inner, rest);
  }

  lemma FlattenCons3(ps: seq<Node>, a: seq<Node>, b: seq<Node>)
    requires ps != [] && Flatten(ps[0].replies) == a && Flatten(ps[1..]) == b
    ensures Flatten(ps) == [ps[0]] + a + b
  {
  }

  lemma ProjsCons(cs: seq<Comment>, likes: seq<Like>, viewer: Option<int>, ks: seq<nat>)
    requires Fetched(cs) && ks != [] && forall m :: 0 <= m < |ks| ==> ks[m] < |cs|
    ensures Projs(cs, likes, viewer, ks) != []
    ensures Projs(cs, likes, viewer, ks)[0] == Project(cs, likes, viewer, ks[0])
    ensures Projs(cs, likes, viewer, ks)[1..] == Projs(cs, likes, viewer, ks[1..])
  {
  }

  lemma ProjsCons3(cs: seq<Comment>, likes: seq<Like>, viewer: Option<int>, k: nat, a: seq<nat>, b: seq<nat>)
    requires Fetched(cs) && k < |cs|
    requires forall m :: 0 <= m < |a| ==> a[m] < |cs|
    requires forall m :: 0 <= m < |b| ==> b[m] < |cs|
    ensures Projs(cs, likes, viewer, [k] + a + b) ==
      [Project(cs, likes, viewer, k)] + Projs(cs, likes, viewer, a) + Projs(cs, likes, viewer, b)
  {
    ProjsAppend(cs, likes, viewer, [k] + a, b);
    ProjsAppend(cs, likes, viewer, [k], a);
  }

  lemma RepliesOf(cs: seq<Comment>, likes: seq<Like>, viewer: Option<int>, i: nat)
    requires Fetched(cs) && i < |cs|
    ensures Project(cs, likes, viewer, i).replies == Projs(cs, likes, viewer, Kids(cs, i))
  {
  }

  // ---------------------------------------------------------------------------
  // Subtrees as sets
  // ---------------------------------------------------------------------------

  /** The comments at or below comment `i`. */
  function Under(cs: seq<Comment>, i: nat): set<nat>
  {
    set j: nat | j < |cs| && IsAnc(cs, i, j)
  }

  function UnderAll(cs: seq<Comment>, ks: seq<nat>): set<nat>
  {
    if ks == [] then {} else Under(cs, ks[0]) + UnderAll(cs, ks[1..])
  }

  lemma {:induction false} InUnderAll(cs: seq<Comment>, ks: seq<nat>, j: nat)
    ensures j in UnderAll(cs, ks) <==> exists m :: 0 <= m < |ks| && j in Under(cs, ks[m])
  {
    if ks != [] {
      InUnderAll(cs, ks[1..], j);
      if exists m :: 0 <= m < |ks| && j in Under(cs, ks[m]) {
        var m :| 0 <= m < |ks| && j in Under(cs, ks[m]);
        if m > 0 {
          assert ks[1..][m - 1] == ks[m];
        }
      }
      if exists m :: 0 <= m < |ks[1..]| && j in Under(cs, ks[1..][m]) {
        var m :| 0 <= m < |ks[1..]| && j in Under(cs, ks[1..][m]);
        assert ks[1..][m] == ks[m + 1];
      }
    }
  }

  /** Below a comment other than itself, each descendant hangs under one of its replies. */
  lemma {:induction false} AncViaKid(cs: seq<Comment>, i: nat, j: nat)
    requires Fetched(cs) && i < |cs| && j < |cs| && IsAnc(cs, i, j) && i != j
    ensures exists k :: k in Kids(cs, i) && IsAnc(cs, k, j)
    decreases j
  {
    var p := ParentIdx(cs, j).value;
    assert IsAnc(cs, p, j);
    if p == i {
      assert j in Kids(cs, i);
    } else {
      AncViaKid(cs, i, p);
      var k :| k in Kids(cs, i) && IsAnc(cs, k, p);
      AncTrans(cs, k, p, j);
    }
  }

  /** The subtree of `i` is `i` together with the subtrees of its replies. */
  lemma UnderSplit(cs: seq<Comment>, i: nat)
    requires Fetched(cs) && i < |cs|
    ensures Under(cs, i) == {i} + UnderAll(cs, Kids(cs, i))
    ensures i !in UnderAll(cs, Kids(cs, i))
  {
    var ks := Kids(cs, i);
    forall j: nat | j in Under(cs, i) && j != i ensures j in UnderAll(cs, ks) {
      AncViaKid(cs, i, j);
      var k :| k in ks && IsAnc(cs, k, j);
      var m :| 0 <= m < |ks| && ks[m] == k;
      InUnderAll(cs, ks, j);
    }
    forall j: nat | j in UnderAll(cs, ks) ensures j in Under(cs, i) && j != i {
      InUnderAll(cs, ks, j);
      var m :| 0 <= m < |ks| && j in Under(cs, ks[m]);
      var k := ks[m];
      assert k in ks;
      ParentIdxUnique(cs, i, k);
      assert IsAnc(cs, i, k);
      AncTrans(cs, i, k, j);
      AncBelow(cs, k, j);
    }
    assert IsAnc(cs, i, i);
  }

  /** Subtrees of two different members of `ks` never share a comment. */
  predicate Disjoint(cs: seq<Comment>, ks: seq<nat>)
  {
    forall a, b :: 0 <= a < b < |ks| ==> Under(cs, ks[a]) !! Under(cs, ks[b])
  }

  /** Two comments on different branches (neither above the other) have disjoint subtrees. */
  lemma Unrelated(cs: seq<Comment>, x: nat, y: nat)
    requires x < |cs| && y < |cs|
    requires !IsAnc(cs, x, y) && !IsAnc(cs, y, x)
    ensures Under(cs, x) !! Under(cs, y)
  {
    forall j | j in Under(cs, x) && j in Under(cs, y) ensures false {
      AncChain(cs, x, y, j);
    }
  }

  lemma KidsDisjoint(cs: seq<Comment>, i: nat)
    requires Fetched(cs) && i < |cs|
    ensures Disjoint(cs, Kids(cs, i))
  {
    var ks := Kids(cs, i);
    forall a, b | 0 <= a < b < |ks| ensures Under(cs, ks[a]) !! Under(cs, ks[b]) {
      var x, y := ks[a], ks[b];
      assert x in ks && y in ks;
      ParentIdxUnique(cs, i, x);
      ParentIdxUnique(cs, i, y);
      if IsAnc(cs, x, y) {
        AncBelow(cs, x, i);
      }
      if IsAnc(cs, y, x) {
        AncBelow(cs, y, i);
      }
      Unrelated(cs, x, y);
    }
  }

  lemma RootsDisjoint(cs: seq<Comment>)
    requires Fetched(cs)
    ensures Disjoint(cs, Roots(cs))
  {
    var rs := Roots(cs);
    forall a, b | 0 <= a < b < |rs| ensures Under(cs, rs[a]) !! Under(cs, rs[b]) {
      var x, y := rs[a], rs[b];
      assert x in rs && y in rs;
      Unrelated(cs, x, y);
    }
  }

  lemma MultisetOfUnion(a: set<nat>, b: set<nat>)
    requires a !! b
    ensures multiset(a + b) == multiset(a) + multiset(b)
  {
    forall x ensures multiset(a + b)[x] == (multiset(a) + multiset(b))[x] {
    }
  }

  /** Each comment below `ks` occurs exactly once in their pre-order. */
  lemma {:induction false} PreAllCounts(cs: seq<Comment>, ks: seq<nat>, lo: int)
    requires Fetched(cs) && lo >= -1
    requires forall m :: 0 <= m < |ks| ==> lo < ks[m] < |cs|
    requires Disjoint(cs, ks)
    ensures multiset(PreAll(cs, ks, lo)) == multiset(UnderAll(cs, ks))
    decreases |cs| - lo, |ks|
  {
    if ks != [] {
      var k0 := ks[0];
      KidsDisjoint(cs, k0);
      PreAllCounts(cs, Kids(cs, k0), k0);
      PreIdxCounts(cs, k0);
      DisjointTail(cs, ks);
      PreAllCounts(cs, ks[1..], lo);
      HeadApart(cs, ks);
      MultisetOfUnion(Under(cs, k0), UnderAll(cs, ks[1..]));
    }
  }

  /** One subtree's pre-order counts its comments once, given that its replies' pre-order does. */
  lemma PreIdxCounts(cs: seq<Comment>, i: nat)
    requires Fetched(cs) && i < |cs|
    requires multiset(PreAll(cs, Kids(cs, i), i)) == multiset(UnderAll(cs, Kids(cs, i)))
    ensures multiset(PreIdx(cs, i)) == multiset(Under(cs, i))
  {
    UnderSplit(cs, i);
    MultisetOfUnion({i}, UnderAll(cs, Kids(cs, i)));
  }

  lemma DisjointTail(cs: seq<Comment>, ks: seq<nat>)
    requires ks != [] && Disjoint(cs, ks)
    ensures Disjoint(cs, ks[1..])
  {
    forall a, b | 0 <= a < b < |ks[1..]| ensures Under(cs, ks[1..][a]) !! Under(cs, ks[1..][b]) {
      assert ks[1..][a] == ks[a + 1] && ks[1..][b] == ks[b + 1];
    }
  }

  /** The first subtree shares nothing with the subtrees after it. */
  lemma HeadApart(cs: seq<Comment>, ks: seq<nat>)
    requires ks != [] && Disjoint(cs, ks)
    ensures Under(cs, ks[0]) !! UnderAll(cs, ks[1..])
  {
    forall j | j in Under(cs, ks[0]) && j in UnderAll(cs, ks[1..]) ensures false {
      InUnderAll(cs, ks[1..], j);
    }
  }

  // ---------------------------------------------------------------------------
  // Which comments the forest holds
  // ---------------------------------------------------------------------------

  /** The ids of the comments at the given positions. */
  function IdsAt(cs: seq<Comment>, s: seq<nat>): seq<int>
    requires forall m :: 0 <= m < |s| ==> s[m] < |cs|
  {
    seq(|s|, t requires 0 <= t < |s| => cs[s[t]].id)
  }

  /** The ids of all fetched comments, in fetched order. */
  function CommentIds(cs: seq<Comment>): seq<int>
  {
    seq(|cs|, j requires 0 <= j < |cs| => cs[j].id)
  }

  /** With distinct ids, a comment's id occurs as often as its position does. */
  lemma {:induction false} IdCount(cs: seq<Comment>, s: seq<nat>, j: nat)
    requires DistinctIds(cs) && j < |cs|
    requires forall m :: 0 <= m < |s| ==> s[m] < |cs|
    ensures multiset(IdsAt(cs, s))[cs[j].id] == multiset(s)[j]
  {
    if s != [] {
      IdCount(cs, s[1..], j);
      assert IdsAt(cs, s) == [cs[s[0]].id] + IdsAt(cs, s[1..]);
      assert s == [s[0]] + s[1..];
      if s[0] != j {
        IdsDiffer(cs, s[0], j);
      }
    }
  }

  lemma IdsDiffer(cs: seq<Comment>, a: nat, b: nat)
    requires DistinctIds(cs) && a < |cs| && b < |cs| && a != b
    ensures cs[a].id != cs[b].id
  {
    if b < a {
      assert cs[b].id != cs[a].id;
    }
  }

  /** With distinct ids, each id occurs once among the fetched comments, and no other id does. */
  lemma {:induction false} CountIds(cs: seq<Comment>, x: int)
    requires DistinctIds(cs)
    ensures multiset(CommentIds(cs))[x] == if exists j :: 0 <= j < |cs| && cs[j].id == x then 1 else 0
  {
    if cs != [] {
      var tl := cs[1..];
      assert DistinctIds(tl) by {
        forall a, b | 0 <= a < b < |tl| ensures tl[a].id != tl[b].id {
          assert tl[a] == cs[a + 1] && tl[b] == cs[b + 1];
        }
      }
      CountIds(tl, x);
      assert CommentIds(cs) == [cs[0].id] + CommentIds(tl);
      if cs[0].id == x {
        forall j | 0 <= j < |tl| ensures tl[j].id != x {
          assert tl[j] == cs[j + 1];
        }
      } else {
        if exists j :: 0 <= j < |cs| && cs[j].id == x {
          var j :| 0 <= j < |cs| && cs[j].id == x;
          assert tl[j - 1].id == x;
        }
        if exists j :: 0 <= j < |tl| && tl[j].id == x {
          var j :| 0 <= j < |tl| && tl[j].id == x;
          assert cs[j + 1].id == x;
        }
      }
    }
  }

  /** The subtrees of the top-level comments cover exactly the rooted comments. */
  lemma UnderAllRoots(cs: seq<Comment>)
    requires Fetched(cs)
    ensures forall j: nat :: j in UnderAll(cs, Roots(cs)) <==> j < |cs| && Rooted(cs, j)
  {
    var rs := Roots(cs);
    forall j: nat ensures j in UnderAll(cs, rs) <==> j < |cs| && Rooted(cs, j) {
      InUnderAll(cs, rs, j);
      if j < |cs| {
        RootedIffTopAncestor(cs, j);
        if Rooted(cs, j) {
          var r :| 0 <= r < |cs| && cs[r].parent.None? && IsAnc(cs, r, j);
          assert r in rs;
          var m :| 0 <= m < |rs| && rs[m] == r;
          assert j in Under(cs, rs[m]);
        }
        if j in UnderAll(cs, rs) {
          var m :| 0 <= m < |rs| && j in Under(cs, rs[m]);
          assert rs[m] in rs;
        }
      }
    }
  }

  /** The forest's nodes in pre-order are the subtrees of the rooted comments' positions. */
  lemma FlatForest(cs: seq<Comment>, likes: seq<Like>, viewer: Option<int>)
    requires Fetched(cs)
    ensures var pre := PreAll(cs, Roots(cs), -1);
      && Flatten(Forest(cs, likes, viewer)) == Projs(cs, likes, viewer, pre)
      && Preorder(Forest(cs, likes, viewer)) == IdsAt(cs, pre)
      && (forall j: nat :: multiset(pre)[j] == if j < |cs| && Rooted(cs, j) then 1 else 0)
  {
    FlatNodes(cs, likes, viewer);
    FlatIds(cs, likes, viewer);
    PreCounts(cs);
  }

  lemma FlatNodes(cs: seq<Comment>, likes: seq<Like>, viewer: Option<int>)
    requires Fetched(cs)
    ensures Flatten(Forest(cs, likes, viewer)) == Projs(cs, likes, viewer, PreAll(cs, Roots(cs), -1))
  {
    FlattenProjs(cs, likes, viewer, Roots(cs), -1);
  }

  lemma FlatIds(cs: seq<Comment>, likes: seq<Like>, viewer: Option<int>)
    requires Fetched(cs)
    ensures Preorder(Forest(cs, likes, viewer)) == IdsAt(cs, PreAll(cs, Roots(cs), -1))
  {
    var pre := PreAll(cs, Roots(cs), -1);
    FlatNodes(cs, likes, viewer);
    var ids := Preorder(Forest(cs, likes, viewer));
    forall t | 0 <= t < |ids| ensures ids[t] == IdsAt(cs, pre)[t] {
      ProjectShape(cs, likes, viewer, pre[t]);
    }
  }

  lemma PreCounts(cs: seq<Comment>)
    requires Fetched(cs)
    ensures forall j: nat :: multiset(PreAll(cs, Roots(cs), -1))[j] == if j < |cs| && Rooted(cs, j) then 1 else 0
  {
    RootsDisjoint(cs);
    PreAllCounts(cs, Roots(cs), -1);
    UnderAllRoots(cs);
  }

  /** Every position in the forest's pre-order is a rooted comment's. */
  lemma PreRooted(cs: seq<Comment>, t: nat)
    requires Fetched(cs) && t < |PreAll(cs, Roots(cs), -1)|
    ensures var pre := PreAll(cs, Roots(cs), -1); pre[t] < |cs| && Rooted(cs, pre[t])
  {
    var pre := PreAll(cs, Roots(cs), -1);
    PreCounts(cs);
    assert pre[t] in multiset(pre);
  }

  lemma CountAt(cs: seq<Comment>, likes: seq<Like>, viewer: Option<int>, j: nat)
    requires Fetched(cs) && j < |cs|
    ensures multiset(Preorder(Forest(cs, likes, viewer)))[cs[j].id] == if Rooted(cs, j) then 1 else 0
  {
    FlatIds(cs, likes, viewer);
    PreCounts(cs);
    IdCount(cs, PreAll(cs, Roots(cs), -1), j);
  }

  lemma MemberAt(cs: seq<Comment>, likes: seq<Like>, viewer: Option<int>, t: nat)
    requires Fetched(cs) && t < |Preorder(Forest(cs, likes, viewer))|
    ensures exists j :: 0 <= j < |cs| && Rooted(cs, j) && Preorder(Forest(cs, likes, viewer))[t] == cs[j].id
  {
    FlatIds(cs, likes, viewer);
    PreRooted(cs, t);
  }

  /**
   * Every comment whose chain of parents reaches a top-level comment occurs
   * exactly once in the forest, and nothing else occurs in it.
   */
  lemma Occurrences(cs: seq<Comment>, likes: seq<Like>, viewer: Option<int>)
    requires Fetched(cs)
    ensures var ids := Preorder(Forest(cs, likes, viewer));
      && (forall j :: 0 <= j < |cs| ==> multiset(ids)[cs[j].id] == if Rooted(cs, j) then 1 else 0)
      && (forall t :: 0 <= t < |ids| ==> exists j :: 0 <= j < |cs| && Rooted(cs, j) && ids[t] == cs[j].id)
  {
    var ids := Preorder(Forest(cs, likes, viewer));
    forall j | 0 <= j < |cs| ensures multiset(ids)[cs[j].id] == if Rooted(cs, j) then 1 else 0 {
      CountAt(cs, likes, viewer, j);
    }
    forall t | 0 <= t < |ids| ensures exists j :: 0 <= j < |cs| && Rooted(cs, j) && ids[t] == cs[j].id {
      MemberAt(cs, likes, viewer, t);
    }
  }

  /** A comment below a rooted comment's ancestor is itself below a top-level comment. */
  lemma RootedAbove(cs: seq<Comment>, a: nat, j: nat)
    requires a < |cs| && j < |cs| && IsAnc(cs, a, j) && Rooted(cs, j)
    ensures Rooted(cs, a)
  {
    RootedIffTopAncestor(cs, j);
    var r :| 0 <= r < |cs| && cs[r].parent.None? && IsAnc(cs, r, j);
    AncChain(cs, r, a, j);
    RootedIffTopAncestor(cs, a);
  }

  /**
   * A comment whose parent was not fetched appears nowhere in the forest, and
   * neither does anything below it.
   */
  lemma OrphanNowhere(cs: seq<Comment>, likes: seq<Like>, viewer: Option<int>, o: nat, j: nat)
    requires Fetched(cs) && o < |cs| && j < |cs|
    requires cs[o].parent.Some? && forall k :: 0 <= k < |cs| ==> cs[k].id != cs[o].parent.value
    requires IsAnc(cs, o, j)
    ensures cs[j].id !in Preorder(Forest(cs, likes, viewer))
  {
    Occurrences(cs, likes, viewer);
    if Rooted(cs, j) {
      RootedAbove(cs, o, j);
    }
    assert multiset(Preorder(Forest(cs, likes, viewer)))[cs[j].id] == 0;
  }

  lemma CountWhenParentsExist(cs: seq<Comment>, likes: seq<Like>, viewer: Option<int>, x: int)
    requires Fetched(cs) && ParentsExist(cs)
    ensures multiset(Preorder(Forest(cs, likes, viewer)))[x] == multiset(CommentIds(cs))[x]
  {
    var ids := Preorder(Forest(cs, likes, viewer));
    CountIds(cs, x);
    if exists j :: 0 <= j < |cs| && cs[j].id == x {
      var j :| 0 <= j < |cs| && cs[j].id == x;
      CountAt(cs, likes, viewer, j);
      AllRooted(cs, j);
    } else if x in ids {
      var t :| 0 <= t < |ids| && ids[t] == x;
      MemberAt(cs, likes, viewer, t);
    }
  }

  /**
   * When every parent is among the fetched comments, the forest lists each
   * comment exactly once: its pre-order is a permutation of the comment ids.
   */
  lemma CompleteWhenParentsExist(cs: seq<Comment>, likes: seq<Like>, viewer: Option<int>)
    requires Fetched(cs) && ParentsExist(cs)
    ensures multiset(Preorder(Forest(cs, likes, viewer))) == multiset(CommentIds(cs))
    ensures |Preorder(Forest(cs, likes, viewer))| == |cs|
  {
    var ids := Preorder(Forest(cs, likes, viewer));
    forall x ensures multiset(ids)[x] == multiset(CommentIds(cs))[x] {
      CountWhenParentsExist(cs, likes, viewer, x);
    }
    assert multiset(ids) == multiset(CommentIds(cs));
    assert |multiset(ids)| == |multiset(CommentIds(cs))|;
  }

  /** Node `n` is the subtree of comment `j`, with that comment's fields and like data. */
  predicate NodeOf(cs: seq<Comment>, likes: seq<Like>, viewer: Option<int>, n: Node, j: nat)
    requires Fetched(cs) && j < |cs|
  {
    && n == Project(cs, likes, viewer, j)
    && n.id == cs[j].id && n.post == cs[j].post && n.parent == cs[j].parent
    && n.author == cs[j].author && n.content == cs[j].content && n.createdAt == cs[j].createdAt
    && n.likeCount == LikeCount(likes, cs[j].id)
    && n.userHasLiked == HasLiked(viewer, likes, cs[j].id)
  }

  /**
   * Every node anywhere in the forest is the subtree of one rooted comment,
   * carrying that comment's fields, its like count and the viewer's like flag.
   */
  lemma NodeFields(cs: seq<Comment>, likes: seq<Like>, viewer: Option<int>)
    requires Fetched(cs)
    ensures forall n :: n in Flatten(Forest(cs, likes, viewer)) ==>
      exists j :: 0 <= j < |cs| && Rooted(cs, j) && NodeOf(cs, likes, viewer, n, j)
  {
    var flat := Flatten(Forest(cs, likes, viewer));
    forall n | n in flat
      ensures exists j :: 0 <= j < |cs| && Rooted(cs, j) && NodeOf(cs, likes, viewer, n, j)
    {
      var t :| 0 <= t < |flat| && flat[t] == n;
      NodeAt(cs, likes, viewer, t);
    }
  }

  /** The node at a position of the flattened forest is the subtree of a rooted comment. */
  lemma NodeAt(cs: seq<Comment>, likes: seq<Like>, viewer: Option<int>, t: nat)
    requires Fetched(cs) && t < |Flatten(Forest(cs, likes, viewer))|
    ensures exists j :: 0 <= j < |cs| && Rooted(cs, j) && NodeOf(cs, likes, viewer, Flatten(Forest(cs, likes, viewer))[t], j)
  {
    var pre := PreAll(cs, Roots(cs), -1);
    FlatNodes(cs, likes, viewer);
    PreRooted(cs, t);
    ProjectShape(cs, likes, viewer, pre[t]);
  }

  // ---------------------------------------------------------------------------
  // Depth of a single thread
  // ---------------------------------------------------------------------------

  /** The depth of a forest: the longest path of nested replies, counting nodes. */
  function MaxDepth(ns: seq<Node>): nat
    decreases ns
  {
    if ns == [] then 0
    else
      assert ns[0] in ns;
      var d := 1 + MaxDepth(ns[0].replies);
      var rest := MaxDepth(ns[1..]);
      if d < rest then rest else d
  }

  /** The depth of one tree, one for the node itself. */
  function Depth(n: Node): nat
  {
    1 + MaxDepth(n.replies)
  }

  /** Each comment after the first replies to the one before it. */
  predicate Chain(cs: seq<Comment>)
  {
    |cs| > 0 && cs[0].parent.None? &&
    forall k :: 0 < k < |cs| ==> RepliesTo(cs[k], cs[k - 1])
  }

  predicate RepliesTo(c: Comment, p: Comment)
  {
    c.parent == Some(p.id)
  }

  /** In a chain, a comment's replies can only be the next comment. */
  lemma ChainReply(cs: seq<Comment>, i: nat, k: nat)
    requires DistinctIds(cs) && Chain(cs) && i < |cs| && k < |cs|
    requires cs[k].parent == Some(cs[i].id)
    ensures k == i + 1
  {
    assert RepliesTo(cs[k], cs[k - 1]);
  }

  /** In a chain, only the first comment is top-level. */
  lemma ChainTop(cs: seq<Comment>, k: nat)
    requires Chain(cs) && k < |cs| && cs[k].parent.None?
    ensures k == 0
  {
    if k > 0 {
      ChainStep(cs, k);
    }
  }

  lemma ChainStep(cs: seq<Comment>, k: nat)
    requires Chain(cs) && 0 < k < |cs|
    ensures cs[k].parent == Some(cs[k - 1].id)
  {
    assert RepliesTo(cs[k], cs[k - 1]);
  }

  lemma AllEqualIncreasing(ks: seq<nat>, v: nat)
    requires Increasing(ks)
    requires forall m :: 0 <= m < |ks| ==> ks[m] == v
    ensures |ks| <= 1
  {
    if |ks| > 1 {
      FirstTwo(ks);
    }
  }

  lemma FirstTwo(ks: seq<nat>)
    requires Increasing(ks) && |ks| > 1
    ensures ks[0] < ks[1]
  {
  }

  lemma ChainKids(cs: seq<Comment>, i: nat)
    requires Fetched(cs) && Chain(cs) && i < |cs|
    ensures Kids(cs, i) == if i + 1 < |cs| then [i + 1] else []
  {
    var ks := Kids(cs, i);
    forall m | 0 <= m < |ks| ensures ks[m] == i + 1 {
      assert ks[m] in ks;
      ChainReply(cs, i, ks[m]);
    }
    AllEqualIncreasing(ks, i + 1);
    if i + 1 < |cs| {
      ChainStep(cs, i + 1);
    }
    if |ks| == 1 {
      assert ks[0] in ks;
    }
  }

  lemma ChainRoots(cs: seq<Comment>)
    requires Fetched(cs) && Chain(cs)
    ensures Roots(cs) == [0]
  {
    var rs := Roots(cs);
    forall m | 0 <= m < |rs| ensures rs[m] == 0 {
      assert rs[m] in rs;
      ChainTop(cs, rs[m]);
    }
    AllEqualIncreasing(rs, 0);
    assert 0 in rs;
  }

  lemma {:induction false} ChainDepthFrom(cs: seq<Comment>, likes: seq<Like>, viewer: Option<int>, i: nat)
    requires Fetched(cs) && Chain(cs) && i < |cs|
    ensures Depth(Project(cs, likes, viewer, i)) == |cs| - i
    decreases |cs| - i
  {
    ChainKids(cs, i);
    ProjectShape(cs, likes, viewer, i);
    var rs := Project(cs, likes, viewer, i).replies;
    if i + 1 < |cs| {
      ChainDepthFrom(cs, likes, viewer, i + 1);
      assert rs == [Project(cs, likes, viewer, i + 1)];
      assert rs[1..] == [];
      assert MaxDepth(rs[1..]) == 0;
      assert MaxDepth(rs) == Depth(rs[0]);
    } else {
      assert rs == [];
    }
  }

  /** A single chain of replies comes back as one tree as deep as the chain is long. */
  lemma ChainDepth(cs: seq<Comment>, likes: seq<Like>, viewer: Option<int>)
    requires Fetched(cs) && Chain(cs)
    ensures |Forest(cs, likes, viewer)| == 1
    ensures Depth(Forest(cs, likes, viewer)[0]) == |cs|
  {
    ChainRoots(cs);
    ChainDepthFrom(cs, likes, viewer, 0);
  }
}
