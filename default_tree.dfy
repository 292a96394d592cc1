/** Tree.GetDefaultTree (ElementsTree/Tree.cs:25-71): a fixed demonstration
    tree of fifteen nodes, built by fifteen AddNode calls without child
    identifiers, each naming an earlier node as its parent. The source draws
    each identifier from Guid.NewGuid(); here the caller supplies fifteen
    distinct identifiers, in the order of the source's calls.

    The lemmas hold for any such layout: a list of values and, for every
    call but the first, the position of an earlier call as the parent. */
module DefaultTree {
  import opened TreeNodes
  import opened IdLists
  import opened Traversal
  import opened TreeState
  import opened Wiring
  import opened Insertion

  /** The value of the n-th node added. */
  const DefaultValues: seq<string> :=
    ["root", "node1", "node2", "node11", "node12", "node21", "node111", "node112",
     "node121", "node211", "node212", "node1111", "node2111", "node11111", "node21111"]

  /** The position, in call order, of the n-th node's parent (the first entry is unused). */
  const DefaultParents: seq<nat> := [0, 0, 0, 1, 1, 2, 3, 3, 4, 5, 5, 6, 9, 11, 12]

  /** A layout for ids: one value and one parent position per identifier,
      every parent an earlier call, no identifier twice. */
  predicate Layout(ids: seq<Id>, values: seq<string>, parents: seq<nat>) {
    && |values| == |ids| && |parents| == |ids|
    && Distinct(ids)
    && forall k :: 0 < k < |parents| ==> parents[k] < k
  }

  /** The fifteen calls of GetDefaultTree form a layout. */
  lemma DefaultLayout(ids: seq<Id>)
    requires |ids| == 15 && Distinct(ids)
    ensures Layout(ids, DefaultValues, DefaultParents)
  {
  }

  /** The parentId argument of the n-th call: null for the first. */
  function ParentArg(ids: seq<Id>, parents: seq<nat>, n: nat): (p: Option<Id>)
    requires |parents| == |ids| && n < |ids|
    requires forall k :: 0 < k < |parents| ==> parents[k] < k
    ensures p.None? <==> n == 0
    ensures p.Some? ==> parents[n] < n && p.value == ids[parents[n]]
  {
    if n == 0 then None else Some(ids[parents[n]])
  }

  /** The children of the j-th node once the first n calls are made: the
      later nodes that name it as parent, in call order. */
  function ChildrenAfter(ids: seq<Id>, parents: seq<nat>, j: nat, n: nat): seq<Id>
    requires |parents| == |ids| && n <= |ids|
    decreases n
  {
    if n == 0 then []
    else ChildrenAfter(ids, parents, j, n - 1) + if n - 1 > 0 && parents[n - 1] == j then [ids[n - 1]] else []
  }

  /** The identifiers of the first n calls. */
  function FirstIds(ids: seq<Id>, n: nat): set<Id>
    requires n <= |ids|
  {
    set j | 0 <= j < n :: ids[j]
  }

  lemma FirstIdsStep(ids: seq<Id>, n: nat)
    requires n < |ids|
    ensures FirstIds(ids, n + 1) == FirstIds(ids, n) + {ids[n]}
  {
    assert forall x :: x in FirstIds(ids, n + 1) ==> x in FirstIds(ids, n) || x == ids[n];
  }

  /** The state after the first n calls: a proper forest holding exactly the
      first n identifiers, rooted at the first, each node with its value, its
      parent and its children from the layout, none deleted. */
  ghost predicate BuiltUpTo(s: State, ids: seq<Id>, values: seq<string>, parents: seq<nat>, n: nat)
    requires Layout(ids, values, parents) && n <= |ids|
  {
    && WellFormed(s)
    && s.index.Keys == FirstIds(ids, n)
    && s.roots == (if n == 0 then [] else [ids[0]])
    && forall j :: 0 <= j < n ==>
         && ids[j] in s.index
         && s.index[ids[j]] == TreeNode(ids[j], values[j], false, ParentArg(ids, parents, j), ChildrenAfter(ids, parents, j, n))
  }

  /** A node has no children before any later node is added. */
  lemma {:induction false} NoChildrenYet(ids: seq<Id>, values: seq<string>, parents: seq<nat>, j: nat, n: nat)
    requires Layout(ids, values, parents) && n <= |ids| && n <= j + 1
    ensures ChildrenAfter(ids, parents, j, n) == []
    decreases n
  {
    if n > 0 {
      NoChildrenYet(ids, values, parents, j, n - 1);
    }
  }

  /** No call has been made: the empty tree. */
  lemma BuiltNothing(s: State, ids: seq<Id>, values: seq<string>, parents: seq<nat>)
    requires Layout(ids, values, parents)
    requires WellFormed(s) && s.index == map[] && s.roots == []
    ensures BuiltUpTo(s, ids, values, parents, 0)
  {
  }

  /** The n-th call is allowed: its identifier is new and it adopts nothing,
      and it cascades nothing: it is not deleted and its parent is not. */
  lemma CallReady(s: State, ids: seq<Id>, values: seq<string>, parents: seq<nat>, n: nat)
    requires Layout(ids, values, parents) && n < |ids| && BuiltUpTo(s, ids, values, parents, n)
    ensures ValidState(s) && ids[n] !in s.index
    ensures NoCycle(s, ids[n], ParentArg(ids, parents, n), [])
    ensures HasParent(s.index, ParentArg(ids, parents, n)) <==> n > 0
    ensures !DeletesSubtree(s, ParentArg(ids, parents, n), false)
    ensures Adopted(s, ids[n], []) == []
  {
    if n > 0 {
      var q := parents[n];
      assert s.index[ids[q]].isDeleted == false;
    }
  }

  /** The node added by the n-th call. */
  lemma CallNewNode(s: State, ids: seq<Id>, values: seq<string>, parents: seq<nat>, n: nat)
    requires Layout(ids, values, parents) && n < |ids| && BuiltUpTo(s, ids, values, parents, n)
    ensures ValidState(s) && ids[n] !in s.index && NoCycle(s, ids[n], ParentArg(ids, parents, n), [])
    ensures var r := AddNodeSpec(s, ids[n], ParentArg(ids, parents, n), values[n], false, []).value;
            ids[n] in r.index &&
            r.index[ids[n]] == TreeNode(ids[n], values[n], false, ParentArg(ids, parents, n), ChildrenAfter(ids, parents, n, n + 1))
  {
    CallReady(s, ids, values, parents, n);
    LeafNewNode(s, ids[n], ParentArg(ids, parents, n), values[n]);
    NoChildrenYet(ids, values, parents, n, n + 1);
  }

  /** A call without child identifiers whose parent resolves when given and
      cascades nothing adds a live leaf under that parent. */
  lemma LeafNewNode(s: State, id: Id, p: Option<Id>, v: string)
    requires ValidState(s) && id !in s.index && NoCycle(s, id, p, [])
    requires p.Some? ==> HasParent(s.index, p)
    requires !DeletesSubtree(s, p, false)
    ensures AddNodeSpec(s, id, p, v, false, []).value.index[id] == TreeNode(id, v, false, p, [])
  {
    AddNodeNewNode(s, id, p, v, false, []);
    assert (if HasParent(s.index, p) then p else None) == p;
    assert Adopted(s, id, []) == [];
  }

  /** An earlier node after the n-th call: only its children may grow, by the new node. */
  lemma CallOldNode(s: State, ids: seq<Id>, values: seq<string>, parents: seq<nat>, n: nat, j: nat)
    requires Layout(ids, values, parents) && n < |ids| && BuiltUpTo(s, ids, values, parents, n) && j < n
    ensures ValidState(s) && ids[n] !in s.index && NoCycle(s, ids[n], ParentArg(ids, parents, n), [])
    ensures var r := AddNodeSpec(s, ids[n], ParentArg(ids, parents, n), values[n], false, []).value;
            ids[j] in r.index &&
            r.index[ids[j]] == TreeNode(ids[j], values[j], false, ParentArg(ids, parents, j), ChildrenAfter(ids, parents, j, n + 1))
  {
    var id, p := ids[n], ParentArg(ids, parents, n);
    CallReady(s, ids, values, parents, n);
    AddNodeOldNode(s, id, p, values[n], false, [], ids[j]);
    assert HasParent(s.index, p) && ids[j] == p.value <==> n > 0 && parents[n] == j;
  }

  /** The index, the roots and the proper-forest shape after the n-th call. */
  lemma CallFrame(s: State, ids: seq<Id>, values: seq<string>, parents: seq<nat>, n: nat)
    requires Layout(ids, values, parents) && n < |ids| && BuiltUpTo(s, ids, values, parents, n)
    ensures ValidState(s) && ids[n] !in s.index && NoCycle(s, ids[n], ParentArg(ids, parents, n), [])
    ensures var r := AddNodeSpec(s, ids[n], ParentArg(ids, parents, n), values[n], false, []).value;
            && WellFormed(r)
            && r.index.Keys == FirstIds(ids, n + 1)
            && r.roots == [ids[0]]
  {
    var id, p, v := ids[n], ParentArg(ids, parents, n), values[n];
    CallReady(s, ids, values, parents, n);
    AddNodeKeepsWellFormed(s, id, p, v, false, []);
    AddNodeRoots(s, id, p, v, false, []);
    FilterOutNothing(s.roots, []);
    FirstIdsStep(ids, n);
  }

  /** Every node of the first n + 1 calls after the n-th call. */
  lemma CallNodes(s: State, ids: seq<Id>, values: seq<string>, parents: seq<nat>, n: nat)
    requires Layout(ids, values, parents) && n < |ids| && BuiltUpTo(s, ids, values, parents, n)
    ensures ValidState(s) && ids[n] !in s.index && NoCycle(s, ids[n], ParentArg(ids, parents, n), [])
    ensures var r := AddNodeSpec(s, ids[n], ParentArg(ids, parents, n), values[n], false, []).value;
            forall j :: 0 <= j < n + 1 ==>
              && ids[j] in r.index
              && r.index[ids[j]] == TreeNode(ids[j], values[j], false, ParentArg(ids, parents, j), ChildrenAfter(ids, parents, j, n + 1))
  {
    CallReady(s, ids, values, parents, n);
    forall j | 0 <= j < n + 1
      ensures var r := AddNodeSpec(s, ids[n], ParentArg(ids, parents, n), values[n], false, []).value;
              && ids[j] in r.index
              && r.index[ids[j]] == TreeNode(ids[j], values[j], false, ParentArg(ids, parents, j), ChildrenAfter(ids, parents, j, n + 1))
    {
      if j < n {
        CallOldNode(s, ids, values, parents, n, j);
      } else {
        CallNewNode(s, ids, values, parents, n);
      }
    }
  }

  /** The n-th call extends the state after n calls to the state after n + 1. */
  lemma CallStep(s: State, ids: seq<Id>, values: seq<string>, parents: seq<nat>, n: nat)
    requires Layout(ids, values, parents) && n < |ids| && BuiltUpTo(s, ids, values, parents, n)
    ensures ValidState(s) && ids[n] !in s.index && NoCycle(s, ids[n], ParentArg(ids, parents, n), [])
    ensures BuiltUpTo(AddNodeSpec(s, ids[n], ParentArg(ids, parents, n), values[n], false, []).value, ids, values, parents, n + 1)
  {
    CallFrame(s, ids, values, parents, n);
    CallNodes(s, ids, values, parents, n);
  }

  /** The tree built so far has no tombstone, so every tombstone trivially covers its subtree. */
  lemma BuiltUpToTombstones(s: State, ids: seq<Id>, values: seq<string>, parents: seq<nat>, n: nat)
    requires Layout(ids, values, parents) && n <= |ids| && BuiltUpTo(s, ids, values, parents, n)
    ensures forall k :: k in s.index ==> !s.index[k].isDeleted
    ensures TombstonesClosed(s)
  {
    forall k | k in s.index ensures !s.index[k].isDeleted {
      assert k in FirstIds(ids, n);
      var j :| 0 <= j < n && ids[j] == k;
    }
  }
}
