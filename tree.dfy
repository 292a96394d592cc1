/** The Tree class (ElementsTree/Tree.cs) over its two mutable collections:
    the identifier index and the ordered root list. Each method is proved
    against the state functions of TreeState, Insertion and Merge. */
module Trees {
  import opened TreeNodes
  import opened IdLists
  import opened Traversal
  import opened TreeState
  import opened Wiring
  import opened Insertion
  import opened Merge
  import opened DefaultTree

  class Tree {
    /** rootNodes: the parentless nodes in insertion order. */
    var rootNodes: seq<Id>
    /** idToNodes: every node ever added, deleted or not. */
    var idToNodes: map<Id, TreeNode>

    ghost function Snapshot(): State
      reads this
    {
      State(idToNodes, rootNodes)
    }

    ghost predicate Valid()
      reads this
    {
      ValidState(Snapshot())
    }

    /** Tree(): no roots, no nodes. */
    constructor ()
      ensures Valid() && WellFormed(Snapshot()) && TombstonesClosed(Snapshot())
      ensures rootNodes == [] && idToNodes == map[]
    {
      rootNodes := [];
      idToNodes := map[];
      new;
      assert RankedBy(idToNodes, map[]);
    }

    /** GetDefaultTree: the demonstration tree, one AddNode call per entry
        of the layout, with ids[n] as the identifier of the n-th call. */
    static method GetDefaultTree(ids: seq<Id>) returns (tree: Tree)
      requires |ids| == 15 && Distinct(ids)
      ensures fresh(tree) && tree.Valid()
      ensures BuiltUpTo(tree.Snapshot(), ids, DefaultValues, DefaultParents, 15)
    {
      DefaultLayout(ids);
      tree := new Tree();
      BuiltNothing(tree.Snapshot(), ids, DefaultValues, DefaultParents);
      for n := 0 to 15
        invariant fresh(tree)
        invariant BuiltUpTo(tree.Snapshot(), ids, DefaultValues, DefaultParents, n)
      {
        CallStep(tree.Snapshot(), ids, DefaultValues, DefaultParents, n);
        var _ := tree.AddNode(ids[n], ParentArg(ids, DefaultParents, n), DefaultValues[n], false, []);
      }
    }

    /** GetTreeRoots: a copy of the roots, in order. */
    method GetTreeRoots() returns (r: seq<Id>)
      ensures r == rootNodes
    {
      r := [];
      var i := 0;
      while i < |rootNodes|
        invariant 0 <= i <= |rootNodes|
        invariant r == rootNodes[..i]
      {
        r := r + [rootNodes[i]];
        i := i + 1;
      }
    }

    /** GetNode(id): the indexed node, or null. */
    method GetNode(id: Id) returns (r: Option<TreeNode>)
      ensures r.Some? <==> id in idToNodes
      ensures r.Some? ==> r.value == idToNodes[id]
    {
      if id in idToNodes {
        r := Some(idToNodes[id]);
      } else {
        r := None;
      }
    }

    /** IsHaveNode(id): exactly when GetNode(id) is not null. */
    method IsHaveNode(id: Id) returns (b: bool)
      ensures b <==> id in idToNodes
    {
      var n := GetNode(id);
      b := n.Some?;
    }

    /** GetForest(node): the pre-order flattening from node, or, for null,
        the flattenings of all roots in root order. */
    method GetForest(node: Option<Id>) returns (r: seq<Id>)
      requires Valid()
      requires node.Some? ==> node.value in idToNodes
      ensures node.None? ==> r == Forest(idToNodes, rootNodes)
      ensures node.None? && rootNodes == [] ==> r == []
      ensures node.Some? ==> r == Subtree(idToNodes, node.value)
      decreases if node.None? then 1 else 0, if node.Some? then TheRank(idToNodes)[node.value] else 0, 1
    {
      if node.None? {
        r := [];
        var i := 0;
        while i < |rootNodes|
          invariant 0 <= i <= |rootNodes|
          invariant r == Forest(idToNodes, rootNodes[..i])
        {
          var t := GetForestForNode(Some(rootNodes[i]));
          assert rootNodes[..i + 1][..i] == rootNodes[..i];
          r := r + t;
          i := i + 1;
        }
        assert rootNodes[..i] == rootNodes;
      } else {
        r := GetForestForNode(node);
      }
    }

    /** GetForestForNode(node): nothing for null; otherwise the node, then
        each child's flattening in child order. */
    method GetForestForNode(node: Option<Id>) returns (r: seq<Id>)
      requires Valid()
      requires node.Some? ==> node.value in idToNodes
      ensures node.None? ==> r == []
      ensures node.Some? ==> r == Subtree(idToNodes, node.value)
      decreases 0, if node.Some? then TheRank(idToNodes)[node.value] else 0, 0
    {
      if node.None? {
        return [];
      }
      var x := node.value;
      var cs := idToNodes[x].children;
      ghost var rank := TheRank(idToNodes);
      r := [x];
      var i := 0;
      while i < |cs|
        invariant 0 <= i <= |cs|
        invariant r == [x] + Forest(idToNodes, cs[..i])
      {
        assert cs[i] in idToNodes && rank[cs[i]] < rank[x];
        var t := GetForest(Some(cs[i]));
        assert cs[..i + 1][..i] == cs[..i];
        r := r + t;
        i := i + 1;
      }
      assert cs[..i] == cs;
      SubtreeUnfold(idToNodes, x);
    }

    /** The private RemoveNode(node): null is refused with false; otherwise
        every node of GetForest(node) is tombstoned, in order. */
    method RemoveTreeNode(node: Option<Id>) returns (b: bool)
      requires Valid()
      requires node.Some? ==> node.value in idToNodes
      modifies this
      ensures Valid()
      ensures node.None? ==> !b && Snapshot() == old(Snapshot())
      ensures node.Some? ==> b && Snapshot() == RemoveSpec(old(Snapshot()), node.value)
    {
      if node.None? {
        return false;
      }
      var removeNodes := GetForest(node);
      ghost var s0 := Snapshot();
      ghost var idx0 := idToNodes;
      assert forall x :: x in removeNodes ==> x in idx0;
      var i := 0;
      while i < |removeNodes|
        invariant 0 <= i <= |removeNodes|
        invariant rootNodes == s0.roots
        invariant idToNodes == MarkDeleted(idx0, removeNodes[..i])
      {
        var x := removeNodes[i];
        assert removeNodes[..i + 1][..i] == removeNodes[..i];
        idToNodes := idToNodes[x := idToNodes[x].(isDeleted := true)];
        i := i + 1;
      }
      assert removeNodes[..i] == removeNodes;
      assert Snapshot() == RemoveSpec(s0, node.value);
      b := true;
    }

    /** RemoveNode(nodeId): false for an unknown identifier, otherwise the
        private overload on its node. */
    method RemoveNode(nodeId: Id) returns (b: bool)
      requires Valid()
      modifies this
      ensures Valid()
      ensures b <==> nodeId in old(idToNodes)
      ensures !b ==> Snapshot() == old(Snapshot())
      ensures b ==> Snapshot() == RemoveSpec(old(Snapshot()), nodeId)
      ensures TombstonesClosed(old(Snapshot())) ==> TombstonesClosed(Snapshot())
    {
      var node := GetNode(nodeId);
      if node.None? {
        return false;
      }
      ghost var s0 := Snapshot();
      b := RemoveTreeNode(Some(nodeId));
      if TombstonesClosed(s0) {
        RemoveKeepsTombstones(s0, nodeId);
      }
    }

    /** The private ChangeNodeValue(node, newValue): the value is checked
        first, then null gives false, otherwise the value is set. */
    method ChangeTreeNodeValue(node: Option<Id>, newValue: string) returns (r: Result<bool>)
      requires Valid()
      requires node.Some? ==> node.value in idToNodes
      modifies this
      ensures Valid()
      ensures !ValidValue(newValue) ==> r == Failure(ValueLength) && Snapshot() == old(Snapshot())
      ensures ValidValue(newValue) && node.None? ==> r == Success(false) && Snapshot() == old(Snapshot())
      ensures ValidValue(newValue) && node.Some? ==>
                r == Success(true) && Snapshot() == SetValue(old(Snapshot()), node.value, newValue)
    {
      if !ValidValue(newValue) {
        return Failure(ValueLength);
      }
      if node.None? {
        return Success(false);
      }
      SetValueKeepsShape(Snapshot(), node.value, newValue);
      idToNodes := idToNodes[node.value := idToNodes[node.value].(value := newValue)];
      r := Success(true);
    }

    /** ChangeNodeValue(nodeId, newValue). */
    method ChangeNodeValue(nodeId: Id, newValue: string) returns (r: Result<bool>)
      requires Valid()
      modifies this
      ensures Valid()
      ensures ChangeValueSpec(old(Snapshot()), nodeId, newValue).Failure? ==>
                && r == Failure(ChangeValueSpec(old(Snapshot()), nodeId, newValue).error)
                && Snapshot() == old(Snapshot())
      ensures ChangeValueSpec(old(Snapshot()), nodeId, newValue).Success? ==>
                r == Success(true) && Snapshot() == ChangeValueSpec(old(Snapshot()), nodeId, newValue).value
      ensures TombstonesClosed(old(Snapshot())) ==> TombstonesClosed(Snapshot())
    {
      var node := GetNode(nodeId);
      if node.None? {
        return Failure(NodeAbsent);
      }
      ghost var s0 := Snapshot();
      r := ChangeTreeNodeValue(Some(nodeId), newValue);
      if TombstonesClosed(s0) && ValidValue(newValue) {
        SetValueKeepsTombstones(s0, nodeId, newValue);
      }
    }

    /** AddNode(id, parentId, value, isDeleted, childIds). A null childIds is
        the empty list. */
    method AddNode(id: Id, parentId: Option<Id>, value: string, isDeleted: bool, childIds: seq<Id>) returns (r: Outcome)
      requires Valid() && NoCycle(Snapshot(), id, parentId, childIds)
      modifies this
      ensures Valid()
      ensures AddNodeSpec(old(Snapshot()), id, parentId, value, isDeleted, childIds).Failure? ==>
                && r == Fail(AddNodeSpec(old(Snapshot()), id, parentId, value, isDeleted, childIds).error)
                && Snapshot() == old(Snapshot())
      ensures AddNodeSpec(old(Snapshot()), id, parentId, value, isDeleted, childIds).Success? ==>
                r == Pass && Snapshot() == AddNodeSpec(old(Snapshot()), id, parentId, value, isDeleted, childIds).value
    {
      if id in idToNodes {
        return Fail(DuplicateId(id));
      }
      ghost var s0 := Snapshot();
      var hasParent := parentId.Some? && parentId.value in idToNodes;
      idToNodes := idToNodes[id := NewNode(id, value, isDeleted)];
      if hasParent {
        idToNodes := AddChild(idToNodes, parentId.value, id);
      } else {
        rootNodes := rootNodes + [id];
      }
      ghost var t := Attach(s0, id, parentId, value, isDeleted);
      assert Snapshot() == Adopt(t, id, childIds[..0]);
      var i := 0;
      while i < |childIds|
        invariant 0 <= i <= |childIds|
        invariant id in idToNodes
        invariant Snapshot() == Adopt(t, id, childIds[..i])
      {
        var childId := childIds[i];
        ghost var before := Snapshot();
        assert childIds[..i + 1][..i] == childIds[..i];
        assert Adopt(t, id, childIds[..i + 1]) == AdoptOne(before, id, childId);
        if childId != id && childId in idToNodes {
          if childId in rootNodes {
            rootNodes := RemoveFirst(rootNodes, childId);
          }
          idToNodes := AddChild(idToNodes, id, childId);
        }
        assert Snapshot() == AdoptOne(before, id, childId);
        i := i + 1;
      }
      assert childIds[..i] == childIds;
      WirePreservesValid(s0, id, parentId, value, isDeleted, childIds);
      var newNode := idToNodes[id];
      if (newNode.parent.Some? && idToNodes[newNode.parent.value].isDeleted) || newNode.isDeleted {
        var _ := RemoveTreeNode(Some(id));
      }
      r := Pass;
    }

    /** UpdateTree(newNodes): null is a no-op; every value is validated before
        any record is applied; records are then applied in order. */
    method UpdateTree(newNodes: Option<seq<TreeNode>>) returns (r: Outcome)
      requires Valid() && MergeAllowed(Snapshot(), newNodes)
      modifies this
      ensures Valid()
      ensures MergeSpec(old(Snapshot()), newNodes).Failure? ==>
                && r == Fail(MergeSpec(old(Snapshot()), newNodes).error)
                && Snapshot() == old(Snapshot())
      ensures MergeSpec(old(Snapshot()), newNodes).Success? ==>
                r == Pass && Snapshot() == MergeSpec(old(Snapshot()), newNodes).value
    {
      if newNodes.None? {
        return Pass;
      }
      var recs := newNodes.value;
      var i := 0;
      while i < |recs|
        invariant 0 <= i <= |recs|
        invariant forall j :: 0 <= j < i ==> ValidValue(recs[j].value)
      {
        if !ValidValue(recs[i].value) {
          FirstInvalidAt(recs, i);
          return Fail(RecordValueLength(recs[i].id));
        }
        i := i + 1;
      }
      ghost var s0 := Snapshot();
      i := 0;
      while i < |recs|
        invariant 0 <= i <= |recs|
        invariant Valid()
        invariant Mergeable(s0, recs[..i])
        invariant Snapshot() == ApplyAll(s0, recs[..i])
      {
        var rec := recs[i];
        assert ValidValue(rec.value);
        MergeablePrefix(s0, recs, i + 1);
        assert recs[..i + 1][..i] == recs[..i];
        MergeStep(s0, recs[..i + 1]);
        ghost var before := Snapshot();
        assert ApplyAll(s0, recs[..i + 1]) == ApplyOne(before, rec);
        var current := GetNode(rec.id);
        if current.Some? {
          var _ := ChangeTreeNodeValue(Some(rec.id), rec.value);
          if rec.isDeleted {
            var _ := RemoveTreeNode(Some(rec.id));
          }
          assert Snapshot() == ApplyOne(before, rec);
        } else {
          var _ := AddNode(rec.id, rec.parent, rec.value, rec.isDeleted, rec.children);
          assert Snapshot() == ApplyOne(before, rec);
        }
        i := i + 1;
      }
      assert recs[..i] == recs;
      r := Pass;
    }
  }
}
