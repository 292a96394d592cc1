/** Pre-order flattening of the tree (Tree.GetForest / Tree.GetForestForNode,
    ElementsTree/Tree.cs) as functions over the arena.

    The recursion of the source terminates only when no cycle is reachable
    through the children lists. Acyclicity is stated by a rank: a natural
    number per node that strictly decreases from a node to each of its
    children. The flattening is defined for any such rank and proved not to
    depend on which one is used. */
module Traversal {
  import opened TreeNodes

  /** Every record is stored under its own identifier, and every identifier a
      record links to is stored. */
  ghost predicate Closed(idx: map<Id, TreeNode>) {
    && (forall k :: k in idx ==> idx[k].id == k)
    && (forall k, i :: k in idx && 0 <= i < |idx[k].children| ==> idx[k].children[i] in idx)
    && (forall k :: k in idx && idx[k].parent.Some? ==> idx[k].parent.value in idx)
  }

  /** rank strictly decreases along every parent-to-child link. */
  ghost predicate RankedBy(idx: map<Id, TreeNode>, rank: map<Id, nat>) {
    && idx.Keys <= rank.Keys
    && forall k, i :: k in idx && 0 <= i < |idx[k].children| ==>
         idx[k].children[i] in rank && rank[idx[k].children[i]] < rank[k]
  }

  /** No node can be reached from itself through children lists. */
  ghost predicate Acyclic(idx: map<Id, TreeNode>) {
    exists rank :: RankedBy(idx, rank)
  }

  /** The arena can be traversed from any of its nodes. */
  ghost predicate Traversable(idx: map<Id, TreeNode>) {
    Closed(idx) && Acyclic(idx)
  }

  /** Pre-order flattening from id, with rank as termination measure. */
  ghost function Walk(idx: map<Id, TreeNode>, rank: map<Id, nat>, id: Id): (r: seq<Id>)
    requires Closed(idx) && RankedBy(idx, rank) && id in idx
    ensures |r| >= 1 && r[0] == id
    ensures forall x :: x in r ==> x in idx && (x == id || rank[x] < rank[id])
    decreases rank[id], 1
  {
    [id] + WalkList(idx, rank, idx[id].children, rank[id])
  }

  /** The flattenings of cs, concatenated in order; every element of cs ranks below bound. */
  ghost function WalkList(idx: map<Id, TreeNode>, rank: map<Id, nat>, cs: seq<Id>, bound: nat): (r: seq<Id>)
    requires Closed(idx) && RankedBy(idx, rank)
    requires forall c :: c in cs ==> c in idx && rank[c] < bound
    ensures forall x :: x in r ==> x in idx && rank[x] < bound
    decreases bound, 0, |cs|
  {
    if cs == [] then []
    else WalkList(idx, rank, cs[..|cs| - 1], bound) + Walk(idx, rank, cs[|cs| - 1])
  }

  /** Some rank of an acyclic arena. */
  ghost function TheRank(idx: map<Id, TreeNode>): (rank: map<Id, nat>)
    requires Acyclic(idx)
    ensures RankedBy(idx, rank)
  {
    var rank :| RankedBy(idx, rank); rank
  }

  /** GetForest(node): the node followed by the flattenings of its children. */
  ghost function Subtree(idx: map<Id, TreeNode>, id: Id): (r: seq<Id>)
    requires Traversable(idx) && id in idx
    ensures |r| >= 1 && r[0] == id
    ensures forall x :: x in r ==> x in idx
  {
    Walk(idx, TheRank(idx), id)
  }

  /** The flattenings of ids, concatenated in order (GetForest(null) over the roots). */
  ghost function Forest(idx: map<Id, TreeNode>, ids: seq<Id>): (r: seq<Id>)
    requires Traversable(idx)
    requires forall c :: c in ids ==> c in idx
    ensures forall x :: x in r ==> x in idx
    decreases |ids|
  {
    if ids == [] then [] else Forest(idx, ids[..|ids| - 1]) + Subtree(idx, ids[|ids| - 1])
  }

  /** Same identifiers, same children lists: the shape that traversal sees. */
  ghost predicate SameShape(idx1: map<Id, TreeNode>, idx2: map<Id, TreeNode>) {
    && idx1.Keys == idx2.Keys
    && forall k :: k in idx1 ==> idx1[k].children == idx2[k].children
  }

  lemma {:induction false} WalkListIsForest(idx: map<Id, TreeNode>, cs: seq<Id>, bound: nat)
    requires Traversable(idx)
    requires forall c :: c in cs ==> c in idx && TheRank(idx)[c] < bound
    ensures WalkList(idx, TheRank(idx), cs, bound) == Forest(idx, cs)
    decreases |cs|
  {
    if cs != [] {
      WalkListIsForest(idx, cs[..|cs| - 1], bound);
    }
  }

  /** GetForestForNode: the node itself, then each child's flattening in child order. */
  lemma SubtreeUnfold(idx: map<Id, TreeNode>, id: Id)
    requires Traversable(idx) && id in idx
    ensures Subtree(idx, id) == [id] + Forest(idx, idx[id].children)
  {
    var rank := TheRank(idx);
    WalkListIsForest(idx, idx[id].children, rank[id]);
  }

  lemma {:induction false} WalkRankFree(idx: map<Id, TreeNode>, r1: map<Id, nat>, r2: map<Id, nat>, id: Id)
    requires Closed(idx) && RankedBy(idx, r1) && RankedBy(idx, r2) && id in idx
    ensures Walk(idx, r1, id) == Walk(idx, r2, id)
    decreases r1[id], 1
  {
    WalkListRankFree(idx, r1, r2, idx[id].children, r1[id], r2[id]);
  }

  lemma {:induction false} WalkListRankFree(idx: map<Id, TreeNode>, r1: map<Id, nat>, r2: map<Id, nat>,
                                            cs: seq<Id>, b1: nat, b2: nat)
    requires Closed(idx) && RankedBy(idx, r1) && RankedBy(idx, r2)
    requires forall c :: c in cs ==> c in idx && r1[c] < b1 && r2[c] < b2
    ensures WalkList(idx, r1, cs, b1) == WalkList(idx, r2, cs, b2)
    decreases b1, 0, |cs|
  {
    if cs != [] {
      WalkListRankFree(idx, r1, r2, cs[..|cs| - 1], b1, b2);
      WalkRankFree(idx, r1, r2, cs[|cs| - 1]);
    }
  }

  /** The flattening from id equals the walk under any rank of the arena. */
  lemma SubtreeIsWalk(idx: map<Id, TreeNode>, rank: map<Id, nat>, id: Id)
    requires Closed(idx) && RankedBy(idx, rank) && id in idx
    ensures Traversable(idx) && Subtree(idx, id) == Walk(idx, rank, id)
  {
    WalkRankFree(idx, TheRank(idx), rank, id);
  }

  /** Every node strictly below id ranks lower than id, under every rank. */
  lemma SubtreeRankBelow(idx: map<Id, TreeNode>, rank: map<Id, nat>, id: Id, x: Id)
    requires Closed(idx) && RankedBy(idx, rank) && id in idx
    requires Traversable(idx) && x in Subtree(idx, id) && x != id
    ensures rank[x] < rank[id]
  {
    SubtreeIsWalk(idx, rank, id);
  }

  lemma SameShapeRank(idx1: map<Id, TreeNode>, idx2: map<Id, TreeNode>, rank: map<Id, nat>)
    requires SameShape(idx1, idx2) && RankedBy(idx1, rank)
    ensures RankedBy(idx2, rank)
  {
    forall k, i | k in idx2 && 0 <= i < |idx2[k].children|
      ensures idx2[k].children[i] in rank && rank[idx2[k].children[i]] < rank[k]
    {
      assert idx2[k].children[i] == idx1[k].children[i];
    }
  }

  lemma {:induction false} WalkSameShape(idx1: map<Id, TreeNode>, idx2: map<Id, TreeNode>, rank: map<Id, nat>, id: Id)
    requires Closed(idx1) && Closed(idx2) && SameShape(idx1, idx2)
    requires RankedBy(idx1, rank) && RankedBy(idx2, rank) && id in idx1
    ensures Walk(idx1, rank, id) == Walk(idx2, rank, id)
    decreases rank[id], 1
  {
    WalkListSameShape(idx1, idx2, rank, idx1[id].children, rank[id]);
  }

  lemma {:induction false} WalkListSameShape(idx1: map<Id, TreeNode>, idx2: map<Id, TreeNode>, rank: map<Id, nat>,
                                             cs: seq<Id>, bound: nat)
    requires Closed(idx1) && Closed(idx2) && SameShape(idx1, idx2)
    requires RankedBy(idx1, rank) && RankedBy(idx2, rank)
    requires forall c :: c in cs ==> c in idx1 && rank[c] < bound
    ensures WalkList(idx1, rank, cs, bound) == WalkList(idx2, rank, cs, bound)
    decreases bound, 0, |cs|
  {
    if cs != [] {
      WalkListSameShape(idx1, idx2, rank, cs[..|cs| - 1], bound);
      WalkSameShape(idx1, idx2, rank, cs[|cs| - 1]);
    }
  }

  /** Changing values or tombstones leaves every flattening as it was. */
  lemma SubtreeSameShape(idx1: map<Id, TreeNode>, idx2: map<Id, TreeNode>, id: Id)
    requires Traversable(idx1) && Closed(idx2) && SameShape(idx1, idx2) && id in idx1
    ensures Traversable(idx2) && Subtree(idx1, id) == Subtree(idx2, id)
  {
    var rank := TheRank(idx1);
    SameShapeRank(idx1, idx2, rank);
    WalkSameShape(idx1, idx2, rank, id);
    SubtreeIsWalk(idx2, rank, id);
  }

  lemma {:induction false} ForestSameShape(idx1: map<Id, TreeNode>, idx2: map<Id, TreeNode>, ids: seq<Id>)
    requires Traversable(idx1) && Closed(idx2) && SameShape(idx1, idx2)
    requires forall c :: c in ids ==> c in idx1
    ensures Traversable(idx2) && Forest(idx1, ids) == Forest(idx2, ids)
    decreases |ids|
  {
    SameShapeRank(idx1, idx2, TheRank(idx1));
    if ids != [] {
      ForestSameShape(idx1, idx2, ids[..|ids| - 1]);
      SubtreeSameShape(idx1, idx2, ids[|ids| - 1]);
    }
  }

  lemma {:induction false} ForestContains(idx: map<Id, TreeNode>, ids: seq<Id>, j: nat, y: Id)
    requires Traversable(idx)
    requires forall c :: c in ids ==> c in idx
    requires j < |ids| && y in Subtree(idx, ids[j])
    ensures y in Forest(idx, ids)
    decreases |ids|
  {
    if j < |ids| - 1 {
      ForestContains(idx, ids[..|ids| - 1], j, y);
    }
  }

  /** A child's subtree lies within its parent's subtree. */
  lemma ChildSubtreeWithin(idx: map<Id, TreeNode>, k: Id, i: nat, y: Id)
    requires Traversable(idx) && k in idx && i < |idx[k].children|
    requires y in Subtree(idx, idx[k].children[i])
    ensures y in Subtree(idx, k)
  {
    SubtreeUnfold(idx, k);
    ForestContains(idx, idx[k].children, i, y);
  }

  /** Every node of a forest lies in the flattening of one of its roots. */
  lemma {:induction false} ForestMember(idx: map<Id, TreeNode>, ids: seq<Id>, y: Id) returns (j: nat)
    requires Traversable(idx)
    requires forall c :: c in ids ==> c in idx
    requires y in Forest(idx, ids)
    ensures j < |ids| && y in Subtree(idx, ids[j])
    decreases |ids|
  {
    var front := ids[..|ids| - 1];
    if y in Subtree(idx, ids[|ids| - 1]) {
      j := |ids| - 1;
    } else {
      j := ForestMember(idx, front, y);
      assert front[j] == ids[j];
    }
  }

  /** The flattening of a node contains the flattening of every node in it. */
  lemma {:induction false} SubtreeTransitive(idx: map<Id, TreeNode>, id: Id, k: Id, x: Id)
    requires Traversable(idx) && id in idx
    requires k in Subtree(idx, id) && x in Subtree(idx, k)
    ensures x in Subtree(idx, id)
    decreases TheRank(idx)[id]
  {
    if k != id {
      var cs := idx[id].children;
      SubtreeUnfold(idx, id);
      var j := ForestMember(idx, cs, k);
      SubtreeTransitive(idx, cs[j], k, x);
      ChildSubtreeWithin(idx, id, j, x);
    }
  }

  /** A proper ancestor of id never lies in the subtree of id. */
  lemma AncestorNotInSubtree(idx: map<Id, TreeNode>, id: Id, k: Id)
    requires Traversable(idx) && id in idx && k in idx
    requires k != id && id in Subtree(idx, k)
    ensures k !in Subtree(idx, id)
  {
    var rank := TheRank(idx);
    SubtreeRankBelow(idx, rank, k, id);
    if k in Subtree(idx, id) {
      SubtreeRankBelow(idx, rank, id, k);
    }
  }
}
