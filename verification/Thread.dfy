/**
 * Ancestry along the nullable `Comment.parent` self reference, over a comment
 * sequence in creation order.
 */
module Thread {
  import opened Wrappers
  import opened Models

  /** The first index holding a comment with the given id. */
  function IndexOf(cs: seq<Comment>, id: int): (r: Option<nat>)
    ensures r.Some? ==> r.value < |cs| && cs[r.value].id == id
    ensures r.Some? ==> forall k :: 0 <= k < r.value ==> cs[k].id != id
    ensures r.None? <==> forall k :: 0 <= k < |cs| ==> cs[k].id != id
  {
    if cs == [] then None
    else if cs[0].id == id then Some(0)
    else match IndexOf(cs[1..], id)
      case Some(k) => Some(k + 1)
      case None => None
  }

  /** Where the parent of comment `j` sits, if it is in `cs` at all. */
  function ParentIdx(cs: seq<Comment>, j: nat): (r: Option<nat>)
    requires j < |cs|
    ensures r.Some? ==> r.value < |cs| && cs[j].parent == Some(cs[r.value].id)
    ensures r.Some? && ParentsPrecede(cs) ==> r.value < j
    ensures r.None? <==> cs[j].parent.None? || forall k :: 0 <= k < |cs| ==> cs[k].id != cs[j].parent.value
  {
    match cs[j].parent
    case None => None
    case Some(p) => IndexOf(cs, p)
  }

  /** With primary keys, `ParentIdx` is the one index whose id `cs[j].parent` names. */
  lemma ParentIdxUnique(cs: seq<Comment>, i: nat, j: nat)
    requires DistinctIds(cs) && i < |cs| && j < |cs|
    ensures ParentIdx(cs, j) == Some(i) <==> cs[j].parent == Some(cs[i].id)
  {
    if cs[j].parent == Some(cs[i].id) {
      var r := ParentIdx(cs, j);
      assert r.Some?;
      assert cs[r.value].id == cs[i].id;
    }
  }

  /** `a` is `j` itself or one of its ancestors. */
  predicate IsAnc(cs: seq<Comment>, a: nat, j: nat)
    requires j < |cs|
    decreases j
  {
    a == j ||
    match ParentIdx(cs, j)
    case Some(p) => p < j && IsAnc(cs, a, p)
    case None => false
  }

  /** Following parents from `j` ends at a top-level comment inside `cs`. */
  predicate Rooted(cs: seq<Comment>, j: nat)
    requires j < |cs|
    decreases j
  {
    cs[j].parent.None? ||
    match ParentIdx(cs, j)
    case Some(p) => p < j && Rooted(cs, p)
    case None => false
  }

  lemma {:induction false} AncBelow(cs: seq<Comment>, a: nat, j: nat)
    requires j < |cs| && IsAnc(cs, a, j)
    ensures a <= j
    decreases j
  {
    if a != j {
      AncBelow(cs, a, ParentIdx(cs, j).value);
    }
  }

  lemma {:induction false} AncTrans(cs: seq<Comment>, a: nat, b: nat, j: nat)
    requires b < |cs| && j < |cs| && IsAnc(cs, a, b) && IsAnc(cs, b, j)
    ensures IsAnc(cs, a, j)
    decreases j
  {
    if b != j {
      AncTrans(cs, a, b, ParentIdx(cs, j).value);
    }
  }

  /** The ancestors of one comment form a chain. */
  lemma {:induction false} AncChain(cs: seq<Comment>, a: nat, b: nat, j: nat)
    requires a < |cs| && b < |cs| && j < |cs| && IsAnc(cs, a, j) && IsAnc(cs, b, j)
    ensures IsAnc(cs, a, b) || IsAnc(cs, b, a)
    decreases j
  {
    if a != j && b != j {
      AncChain(cs, a, b, ParentIdx(cs, j).value);
    }
  }

  /** A comment is rooted exactly when some top-level comment is its ancestor. */
  lemma {:induction false} RootedIffTopAncestor(cs: seq<Comment>, j: nat)
    requires j < |cs|
    ensures Rooted(cs, j) <==> exists r :: 0 <= r < |cs| && cs[r].parent.None? && IsAnc(cs, r, j)
    decreases j
  {
    if cs[j].parent.None? {
      assert IsAnc(cs, j, j);
    } else {
      match ParentIdx(cs, j)
      case None =>
      case Some(p) =>
        if p < j {
          RootedIffTopAncestor(cs, p);
          if Rooted(cs, p) {
            var r :| 0 <= r < |cs| && cs[r].parent.None? && IsAnc(cs, r, p);
            AncTrans(cs, r, p, j);
          }
          if exists r :: 0 <= r < |cs| && cs[r].parent.None? && IsAnc(cs, r, j) {
            var r :| 0 <= r < |cs| && cs[r].parent.None? && IsAnc(cs, r, j);
            assert r != j;
          }
        }
    }
  }

  /** When every parent id resolves, every comment is rooted. */
  lemma {:induction false} AllRooted(cs: seq<Comment>, j: nat)
    requires ParentsPrecede(cs) && ParentsExist(cs) && j < |cs|
    ensures Rooted(cs, j)
    decreases j
  {
    if cs[j].parent.Some? {
      assert cs[j] in cs;
      var d :| d in cs && d.id == cs[j].parent.value;
      var p := ParentIdx(cs, j);
      assert p.Some? by {
        var k :| 0 <= k < |cs| && cs[k] == d;
      }
      AllRooted(cs, p.value);
    }
  }
}
