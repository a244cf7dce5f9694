/**
 * The detail view's comment tree: every comment of a post is fetched once in
 * creation order, linked to its parent in memory, and serialised recursively.
 */
module CommentTree {
  import opened Wrappers
  import opened Models
  import opened Thread

  /** One serialised comment with its replies, as the detail view returns it. */
  datatype Node = Node(id: int, post: int, parent: Option<int>, author: User,
                       content: string, createdAt: int, likeCount: nat,
                       replies: seq<Node>, userHasLiked: bool)

  /**
   * What the builder may assume of the fetched list: primary keys, and parents
   * before replies (the list is in creation order). A parent id that names no
   * fetched comment is allowed.
   */
  predicate Fetched(cs: seq<Comment>)
  {
    DistinctIds(cs) && ParentsPrecede(cs)
  }

  predicate Increasing(ks: seq<nat>)
  {
    forall a, b :: 0 <= a < b < |ks| ==> ks[a] < ks[b]
  }

  // ---------------------------------------------------------------------------
  // user_has_liked
  // ---------------------------------------------------------------------------

  /** Python's `user in [like.user_id for like in rows]`. */
  function UserAmong(user: int, rows: seq<Like>): (r: bool)
    ensures r <==> exists k :: 0 <= k < |rows| && rows[k].user == user
  {
    if rows == [] then false
    else rows[0].user == user || UserAmong(user, rows[1..])
  }

  /**
   * `user_has_liked`: the viewer's id is checked only when it is truthy, so an
   * anonymous viewer (and the id 0) never counts as having liked.
   */
  function HasLiked(viewer: Option<int>, likes: seq<Like>, target: int): (r: bool)
    ensures r <==> viewer.Some? && viewer.value != 0 && HasPair(likes, viewer.value, target)
  {
    match viewer
    case None => false
    case Some(user) =>
      var rows := RowsFor(likes, target);
      assert UserAmong(user, rows) <==> HasPair(likes, user, target) by {
        if UserAmong(user, rows) {
          var k :| 0 <= k < |rows| && rows[k].user == user;
          assert rows[k] in rows;
        }
        if HasPair(likes, user, target) {
          var l :| l in likes && IsPair(l, user, target);
          assert l in rows;
          var k :| 0 <= k < |rows| && rows[k] == l;
        }
      }
      user != 0 && UserAmong(user, rows)
  }

  // ---------------------------------------------------------------------------
  // Linking
  // ---------------------------------------------------------------------------

  /** Appending the next index, or nothing, to increasing indices below `n`. */
  lemma SnocIndex(ks: seq<nat>, n: nat, keep: bool)
    requires Increasing(ks) && forall m :: 0 <= m < |ks| ==> ks[m] < n
    ensures var r := ks + (if keep then [n] else []);
      && Increasing(r)
      && (forall m :: 0 <= m < |r| ==> r[m] < n + 1)
      && (forall k: nat :: k in r <==> k in ks || (keep && k == n))
  {
    if !keep {
      assert ks + [] == ks;
    }
  }

  /** The indices below `n` that satisfy `keep`, in increasing order. */
  function Select(n: nat, keep: nat -> bool): seq<nat>
  {
    if n == 0 then []
    else Select(n - 1, keep) + (if keep(n - 1) then [n - 1] else [])
  }

  lemma {:induction false} SelectSpec(n: nat, keep: nat -> bool)
    ensures var ks := Select(n, keep);
      && (forall k: nat :: k in ks <==> k < n && keep(k))
      && Increasing(ks)
      && (forall m :: 0 <= m < |ks| ==> ks[m] < n)
  {
    if n > 0 {
      SelectSpec(n - 1, keep);
      SnocIndex(Select(n - 1, keep), n - 1, keep(n - 1));
    }
  }

  /** The indices below `n` whose comment replies to `pid`, in list order. */
  function KidsUpTo(cs: seq<Comment>, pid: int, n: nat): seq<nat>
    requires n <= |cs|
  {
    if n == 0 then []
    else KidsUpTo(cs, pid, n - 1) + (if cs[n - 1].parent == Some(pid) then [n - 1] else [])
  }

  lemma {:induction false} KidsUpToSpec(cs: seq<Comment>, pid: int, n: nat)
    requires n <= |cs|
    ensures var ks := KidsUpTo(cs, pid, n);
      && (forall k: nat :: k in ks <==> k < n && cs[k].parent == Some(pid))
      && Increasing(ks)
      && (forall m :: 0 <= m < |ks| ==> ks[m] < n)
  {
    if n > 0 {
      KidsUpToSpec(cs, pid, n - 1);
      SnocIndex(KidsUpTo(cs, pid, n - 1), n - 1, cs[n - 1].parent == Some(pid));
    }
  }

  /** The indices below `n` whose comment is top-level, in list order. */
  function RootsUpTo(cs: seq<Comment>, n: nat): seq<nat>
    requires n <= |cs|
  {
    if n == 0 then []
    else RootsUpTo(cs, n - 1) + (if cs[n - 1].parent.None? then [n - 1] else [])
  }

  lemma {:induction false} RootsUpToSpec(cs: seq<Comment>, n: nat)
    requires n <= |cs|
    ensures var ks := RootsUpTo(cs, n);
      && (forall k: nat :: k in ks <==> k < n && cs[k].parent.None?)
      && Increasing(ks)
      && (forall m :: 0 <= m < |ks| ==> ks[m] < n)
  {
    if n > 0 {
      RootsUpToSpec(cs, n - 1);
      SnocIndex(RootsUpTo(cs, n - 1), n - 1, cs[n - 1].parent.None?);
    }
  }

  /** The replies of comment `i`: all later comments whose parent is `i`. */
  function Kids(cs: seq<Comment>, i: nat): (ks: seq<nat>)
    requires Fetched(cs) && i < |cs|
    ensures forall k: nat :: k in ks <==> k < |cs| && cs[k].parent == Some(cs[i].id)
    ensures Increasing(ks)
    ensures forall m :: 0 <= m < |ks| ==> i < ks[m] < |cs|
  {
    var ks := KidsUpTo(cs, cs[i].id, |cs|);
    KidsUpToSpec(cs, cs[i].id, |cs|);
    assert forall m :: 0 <= m < |ks| ==> i < ks[m] by {
      forall m | 0 <= m < |ks| ensures i < ks[m] {
        assert ks[m] in ks;
      }
    }
    ks
  }

  /** The top-level comments. */
  function Roots(cs: seq<Comment>): (ks: seq<nat>)
    ensures forall k: nat :: k in ks <==> k < |cs| && cs[k].parent.None?
    ensures Increasing(ks)
    ensures forall m :: 0 <= m < |ks| ==> ks[m] < |cs|
  {
    RootsUpToSpec(cs, |cs|);
    RootsUpTo(cs, |cs|)
  }

  // ---------------------------------------------------------------------------
  // The reference forest
  // ---------------------------------------------------------------------------

  /** The subtree of comment `i`: its fields and the subtrees of its replies. */
  function Project(cs: seq<Comment>, likes: seq<Like>, viewer: Option<int>, i: nat): Node
    requires Fetched(cs) && i < |cs|
    decreases |cs| - i
  {
    var c := cs[i];
    var ks := Kids(cs, i);
    Node(c.id, c.post, c.parent, c.author, c.content, c.createdAt, LikeCount(likes, c.id),
         seq(|ks|, m requires 0 <= m < |ks| => Project(cs, likes, viewer, ks[m])),
         HasLiked(viewer, likes, c.id))
  }

  /** The subtrees of the given comments, in the given order. */
  function Projs(cs: seq<Comment>, likes: seq<Like>, viewer: Option<int>, ks: seq<nat>): (r: seq<Node>)
    requires Fetched(cs) && forall m :: 0 <= m < |ks| ==> ks[m] < |cs|
    ensures |r| == |ks| && forall m :: 0 <= m < |ks| ==> r[m] == Project(cs, likes, viewer, ks[m])
  {
    seq(|ks|, m requires 0 <= m < |ks| => Project(cs, likes, viewer, ks[m]))
  }

  /** The forest the detail view should return: one tree per top-level comment. */
  function Forest(cs: seq<Comment>, likes: seq<Like>, viewer: Option<int>): seq<Node>
    requires Fetched(cs)
  {
    Projs(cs, likes, viewer, Roots(cs))
  }

  // ---------------------------------------------------------------------------
  // The builder as written
  // ---------------------------------------------------------------------------

  /** Each comment's `replies_list` holds later comments only. */
  predicate LinksSound(cs: seq<Comment>, links: map<nat, seq<nat>>)
  {
    forall i :: 0 <= i < |cs| ==>
      i in links && forall m :: 0 <= m < |links[i]| ==> i < links[i][m] < |cs|
  }

  /** `serialize_comment`: a comment and, recursively, its `replies_list`. */
  function Serialize(cs: seq<Comment>, likes: seq<Like>, viewer: Option<int>,
                     links: map<nat, seq<nat>>, i: nat): Node
    requires LinksSound(cs, links) && i < |cs|
    decreases |cs| - i
  {
    var c := cs[i];
    var ks := links[i];
    Node(c.id, c.post, c.parent, c.author, c.content, c.createdAt, LikeCount(likes, c.id),
         seq(|ks|, m requires 0 <= m < |ks| => Serialize(cs, likes, viewer, links, ks[m])),
         HasLiked(viewer, likes, c.id))
  }

  /** Serialising along `replies_list` gives the reference subtree once the lists are the replies. */
  lemma {:induction false} SerializeIsProject(cs: seq<Comment>, likes: seq<Like>, viewer: Option<int>,
                                              links: map<nat, seq<nat>>, i: nat)
    requires Fetched(cs) && LinksSound(cs, links) && i < |cs|
    requires forall j :: 0 <= j < |cs| ==> links[j] == Kids(cs, j)
    ensures Serialize(cs, likes, viewer, links, i) == Project(cs, likes, viewer, i)
    decreases |cs| - i
  {
    var ks := Kids(cs, i);
    forall m | 0 <= m < |ks| {
      SerializeIsProject(cs, likes, viewer, links, ks[m]);
    }
  }

  /** The id lookup of the first pass: every fetched id maps to its index. */
  predicate IsLookup(cs: seq<Comment>, lookup: map<int, nat>)
  {
    && (forall i :: 0 <= i < |cs| ==> cs[i].id in lookup && lookup[cs[i].id] == i)
    && (forall id :: id in lookup ==> lookup[id] < |cs| && cs[lookup[id]].id == id)
  }

  /** First pass: the id lookup, and an empty `replies_list` for every comment. */
  method IndexComments(cs: seq<Comment>) returns (lookup: map<int, nat>, links: map<nat, seq<nat>>)
    requires DistinctIds(cs)
    ensures IsLookup(cs, lookup)
    ensures forall i :: 0 <= i < |cs| ==> i in links && links[i] == []
  {
    lookup := map[];
    links := map[];
    var k := 0;
    while k < |cs|
      invariant k <= |cs|
      invariant forall i :: 0 <= i < k ==> cs[i].id in lookup && lookup[cs[i].id] == i
      invariant forall id :: id in lookup ==> lookup[id] < k && cs[lookup[id]].id == id
      invariant forall i :: 0 <= i < k ==> i in links && links[i] == []
    {
      lookup := lookup[cs[k].id := k];
      links := links[k := []];
      k := k + 1;
    }
  }

  /** An id in the lookup names the fetched comment it maps to. */
  lemma Present(cs: seq<Comment>, lookup: map<int, nat>, id: int)
    requires IsLookup(cs, lookup) && id in lookup
    ensures lookup[id] < |cs| && cs[lookup[id]].id == id
  {
  }

  /** An id missing from the lookup names no fetched comment. */
  lemma Absent(cs: seq<Comment>, lookup: map<int, nat>, id: int)
    requires IsLookup(cs, lookup) && id !in lookup
    ensures forall i :: 0 <= i < |cs| ==> cs[i].id != id
  {
  }

  /** After `k` steps of the second pass, each `replies_list` holds the replies among the first `k`. */
  predicate LinkedUpTo(cs: seq<Comment>, links: map<nat, seq<nat>>, k: nat)
    requires k <= |cs|
  {
    forall i :: 0 <= i < |cs| ==> i in links && links[i] == KidsUpTo(cs, cs[i].id, k)
  }

  /**
   * Second pass: in list order, a reply is appended to its parent's
   * `replies_list` when the parent was fetched and is dropped otherwise; a
   * top-level comment is appended to the roots.
   */
  method LinkReplies(cs: seq<Comment>, lookup: map<int, nat>, links0: map<nat, seq<nat>>)
    returns (links: map<nat, seq<nat>>, roots: seq<nat>)
    requires DistinctIds(cs) && IsLookup(cs, lookup)
    requires forall i :: 0 <= i < |cs| ==> i in links0 && links0[i] == []
    ensures LinkedUpTo(cs, links, |cs|)
    ensures roots == Roots(cs)
  {
    links := links0;
    roots := [];
    var k := 0;
    while k < |cs|
      invariant k <= |cs|
      invariant roots == RootsUpTo(cs, k)
      invariant LinkedUpTo(cs, links, k)
    {
      links, roots := LinkOne(cs, lookup, links, roots, k);
      k := k + 1;
    }
  }

  /** One step of the second pass, for comment `k`. */
  method LinkOne(cs: seq<Comment>, lookup: map<int, nat>, links: map<nat, seq<nat>>, roots: seq<nat>, k: nat)
    returns (links': map<nat, seq<nat>>, roots': seq<nat>)
    requires DistinctIds(cs) && IsLookup(cs, lookup) && k < |cs|
    requires roots == RootsUpTo(cs, k) && LinkedUpTo(cs, links, k)
    ensures roots' == RootsUpTo(cs, k + 1) && LinkedUpTo(cs, links', k + 1)
  {
    var c := cs[k];
    RootsUpToStep(cs, k);
    if c.parent.Some? {
      roots' := roots;
      if c.parent.value in lookup {
        var p := lookup[c.parent.value];
        Present(cs, lookup, c.parent.value);
        LinkFound(cs, links, k, p);
        links' := links[p := links[p] + [k]];
      } else {
        Absent(cs, lookup, c.parent.value);
        LinkSkipped(cs, links, k);
        links' := links;
      }
    } else {
      LinkSkipped(cs, links, k);
      links' := links;
      roots' := roots + [k];
    }
  }

  /** Appending reply `k` to its parent `p` extends exactly `p`'s list. */
  lemma LinkFound(cs: seq<Comment>, links: map<nat, seq<nat>>, k: nat, p: nat)
    requires DistinctIds(cs) && k < |cs| && p < |cs| && cs[k].parent == Some(cs[p].id)
    requires LinkedUpTo(cs, links, k)
    ensures LinkedUpTo(cs, links[p := links[p] + [k]], k + 1)
  {
    forall i | 0 <= i < |cs|
      ensures links[p := links[p] + [k]][i] == KidsUpTo(cs, cs[i].id, k + 1)
    {
      KidsUpToStep(cs, cs[i].id, k);
      if i != p {
        assert cs[i].id != cs[p].id;
      }
    }
  }

  /** A top-level comment, or one whose parent was not fetched, extends no list. */
  lemma LinkSkipped(cs: seq<Comment>, links: map<nat, seq<nat>>, k: nat)
    requires k < |cs|
    requires cs[k].parent.None? || forall i :: 0 <= i < |cs| ==> cs[i].id != cs[k].parent.value
    requires LinkedUpTo(cs, links, k)
    ensures LinkedUpTo(cs, links, k + 1)
  {
    forall i | 0 <= i < |cs| ensures links[i] == KidsUpTo(cs, cs[i].id, k + 1) {
      KidsUpToStep(cs, cs[i].id, k);
    }
  }

  lemma RootsUpToStep(cs: seq<Comment>, k: nat)
    requires k < |cs|
    ensures RootsUpTo(cs, k + 1) == RootsUpTo(cs, k) + (if cs[k].parent.None? then [k] else [])
  {
  }

  lemma KidsUpToStep(cs: seq<Comment>, pid: int, k: nat)
    requires k < |cs|
    ensures KidsUpTo(cs, pid, k + 1) == KidsUpTo(cs, pid, k) + (if cs[k].parent == Some(pid) then [k] else [])
  {
  }

  /**
   * `PostDetailSerializer.get_comments`: an empty list yields no trees;
   * otherwise the two passes link every reply and the roots are serialised.
   */
  method GetComments(cs: seq<Comment>, likes: seq<Like>, viewer: Option<int>) returns (r: seq<Node>)
    requires Fetched(cs)
    ensures cs == [] ==> r == []
    ensures r == Forest(cs, likes, viewer)
  {
    if cs == [] {
      return [];
    }
    var lookup, links0 := IndexComments(cs);
    var links, roots := LinkReplies(cs, lookup, links0);
    assert forall j :: 0 <= j < |cs| ==> links[j] == Kids(cs, j);
    forall j | 0 <= j < |cs| {
      SerializeIsProject(cs, likes, viewer, links, j);
    }
    r := seq(|roots|, m requires 0 <= m < |roots| => Serialize(cs, likes, viewer, links, roots[m]));
  }
}
