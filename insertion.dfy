/** Tree.AddNode (ElementsTree/Tree.cs:132-165): duplicate check, wiring,
    cascading delete, registration. */
module Insertion {
  import opened TreeNodes
  import opened IdLists
  import opened Traversal
  import opened TreeState
  import opened Wiring

  /** Line 161, read on the wired state: the new node's parent is deleted, or the new node is. */
  ghost predicate Cascades(w: State, id: Id)
    requires Closed(w.index) && id in w.index
  {
    (w.index[id].parent.Some? && w.index[w.index[id].parent.value].isDeleted) || w.index[id].isDeleted
  }

  /** The same condition in terms of the call's arguments and the state before it. */
  predicate DeletesSubtree(s: State, parentId: Option<Id>, isDeleted: bool) {
    isDeleted || (HasParent(s.index, parentId) && s.index[parentId.value].isDeleted)
  }

  /** The cascade condition read on the wired state is the condition on the
      call's arguments and the state before it. */
  lemma CascadeCondition(s: State, id: Id, parentId: Option<Id>, value: string, isDeleted: bool, childIds: seq<Id>)
    requires ValidState(s) && NoCycle(s, id, parentId, childIds) && id !in s.index
    ensures ValidState(Wire(s, id, parentId, value, isDeleted, childIds))
    ensures id in Wire(s, id, parentId, value, isDeleted, childIds).index
    ensures Cascades(Wire(s, id, parentId, value, isDeleted, childIds), id) <==> DeletesSubtree(s, parentId, isDeleted)
  {
    WirePreservesValid(s, id, parentId, value, isDeleted, childIds);
    WireNewNode(s, id, parentId, value, isDeleted, childIds);
    if HasParent(s.index, parentId) {
      WireOldNode(s, id, parentId, value, isDeleted, childIds, parentId.value);
    }
  }

  /** AddNode(id, parentId, value, isDeleted, childIds). A null childIds is the empty list. */
  ghost function AddNodeSpec(s: State, id: Id, parentId: Option<Id>, value: string, isDeleted: bool, childIds: seq<Id>)
    : (r: Result<State>)
    requires ValidState(s) && NoCycle(s, id, parentId, childIds)
    ensures r.Failure? <==> id in s.index
    ensures r.Failure? ==> r.error == DuplicateId(id)
    ensures r.Success? ==> ValidState(r.value) && r.value.index.Keys == s.index.Keys + {id}
  {
    if id in s.index then Failure(DuplicateId(id))
    else
      var w := Wire(s, id, parentId, value, isDeleted, childIds);
      WirePreservesValid(s, id, parentId, value, isDeleted, childIds);
      Success(if Cascades(w, id) then RemoveSpec(w, id) else w)
  }

  /** The cascade leaves the shape of the wired state as it is. */
  lemma AddNodeIsWiredAndMarked(s: State, id: Id, parentId: Option<Id>, value: string, isDeleted: bool, childIds: seq<Id>)
    requires ValidState(s) && NoCycle(s, id, parentId, childIds) && id !in s.index
    ensures var w := Wire(s, id, parentId, value, isDeleted, childIds);
            var r := AddNodeSpec(s, id, parentId, value, isDeleted, childIds).value;
            && ValidState(w)
            && r.roots == w.roots
            && r.index.Keys == w.index.Keys
            && SameShape(w.index, r.index)
            && Subtree(w.index, id) == Subtree(r.index, id)
            && (Cascades(w, id) <==> DeletesSubtree(s, parentId, isDeleted))
            && forall k :: k in w.index ==>
                 r.index[k] == w.index[k].(isDeleted := w.index[k].isDeleted ||
                                             (DeletesSubtree(s, parentId, isDeleted) && k in Subtree(r.index, id)))
  {
    var w := Wire(s, id, parentId, value, isDeleted, childIds);
    var r := AddNodeSpec(s, id, parentId, value, isDeleted, childIds).value;
    WirePreservesValid(s, id, parentId, value, isDeleted, childIds);
    WireNewNode(s, id, parentId, value, isDeleted, childIds);
    if HasParent(s.index, parentId) {
      WireOldNode(s, id, parentId, value, isDeleted, childIds, parentId.value);
    }
    if Cascades(w, id) {
      RemoveMarksExactlySubtree(w, id);
    }
    assert SameShape(w.index, r.index);
    SubtreeSameShape(w.index, r.index, id);
  }

  /** The new node after AddNode (lines 137-144, 147-158, 160-164). */
  lemma AddNodeNewNode(s: State, id: Id, parentId: Option<Id>, value: string, isDeleted: bool, childIds: seq<Id>)
    requires ValidState(s) && NoCycle(s, id, parentId, childIds) && id !in s.index
    ensures AddNodeSpec(s, id, parentId, value, isDeleted, childIds).value.index[id] ==
            TreeNode(id, value, DeletesSubtree(s, parentId, isDeleted),
                     if HasParent(s.index, parentId) then parentId else None,
                     Adopted(s, id, childIds))
  {
    AddNodeIsWiredAndMarked(s, id, parentId, value, isDeleted, childIds);
    WireNewNode(s, id, parentId, value, isDeleted, childIds);
    var r := AddNodeSpec(s, id, parentId, value, isDeleted, childIds).value;
    assert Subtree(r.index, id)[0] == id;
  }

  /** An existing node k after AddNode: its parent changes when it is adopted,
      its children when it is the parent, its flag when the cascade reaches it. */
  lemma AddNodeOldNode(s: State, id: Id, parentId: Option<Id>, value: string, isDeleted: bool, childIds: seq<Id>, k: Id)
    requires ValidState(s) && NoCycle(s, id, parentId, childIds) && id !in s.index && k in s.index
    ensures var r := AddNodeSpec(s, id, parentId, value, isDeleted, childIds).value;
            r.index[k] ==
            s.index[k].(parent := NewParent(s, id, childIds, k),
                        children := NewChildren(s, id, parentId, k),
                        isDeleted := s.index[k].isDeleted ||
                                     (DeletesSubtree(s, parentId, isDeleted) && k in Subtree(r.index, id)))
  {
    AddNodeIsWiredAndMarked(s, id, parentId, value, isDeleted, childIds);
    WireOldNode(s, id, parentId, value, isDeleted, childIds, k);
  }

  /** The links of an existing node k after AddNode. */
  lemma AddNodeLinks(s: State, id: Id, parentId: Option<Id>, value: string, isDeleted: bool, childIds: seq<Id>, k: Id)
    requires ValidState(s) && NoCycle(s, id, parentId, childIds) && id !in s.index && k in s.index
    ensures var r := AddNodeSpec(s, id, parentId, value, isDeleted, childIds).value;
            && r.index[k].parent == NewParent(s, id, childIds, k)
            && r.index[k].children == NewChildren(s, id, parentId, k)
  {
    AddNodeOldNode(s, id, parentId, value, isDeleted, childIds, k);
  }

  /** The links of the new node after AddNode. */
  lemma AddNodeNewLinks(s: State, id: Id, parentId: Option<Id>, value: string, isDeleted: bool, childIds: seq<Id>)
    requires ValidState(s) && NoCycle(s, id, parentId, childIds) && id !in s.index
    ensures var r := AddNodeSpec(s, id, parentId, value, isDeleted, childIds).value;
            && r.index[id].parent == (if HasParent(s.index, parentId) then parentId else None)
            && r.index[id].children == Adopted(s, id, childIds)
  {
    AddNodeNewNode(s, id, parentId, value, isDeleted, childIds);
  }

  /** The roots after AddNode: adopted children leave them, and the new node
      is appended when its parent does not resolve. */
  lemma AddNodeRoots(s: State, id: Id, parentId: Option<Id>, value: string, isDeleted: bool, childIds: seq<Id>)
    requires ValidState(s) && NoCycle(s, id, parentId, childIds) && id !in s.index
    ensures AddNodeSpec(s, id, parentId, value, isDeleted, childIds).value.roots ==
            FilterOut(s.roots, Adopted(s, id, childIds)) + if HasParent(s.index, parentId) then [] else [id]
  {
    AddNodeIsWiredAndMarked(s, id, parentId, value, isDeleted, childIds);
    assert id !in s.roots;
    WireRoots(s, id, parentId, value, isDeleted, childIds);
  }

  /** Lines 137-144 and 164: the identifier is indexed with the given value;
      the node becomes the last child of the resolved parent, or else the last
      root (an unresolved parent identifier is no error). */
  lemma AddNodeInserts(s: State, id: Id, parentId: Option<Id>, value: string, isDeleted: bool, childIds: seq<Id>)
    requires ValidState(s) && NoCycle(s, id, parentId, childIds) && id !in s.index
    ensures var r := AddNodeSpec(s, id, parentId, value, isDeleted, childIds).value;
            && r.index.Keys == s.index.Keys + {id}
            && r.index[id].id == id && r.index[id].value == value
            && (isDeleted ==> r.index[id].isDeleted)
            && (HasParent(s.index, parentId) ==>
                  && r.index[id].parent == parentId
                  && r.index[parentId.value].children == s.index[parentId.value].children + [id]
                  && id !in r.roots)
            && (!HasParent(s.index, parentId) ==>
                  && r.index[id].parent == None
                  && |r.roots| > 0 && r.roots[|r.roots| - 1] == id)
  {
    AddNodeNewNode(s, id, parentId, value, isDeleted, childIds);
    AddNodeRoots(s, id, parentId, value, isDeleted, childIds);
    if HasParent(s.index, parentId) {
      AddNodeOldNode(s, id, parentId, value, isDeleted, childIds, parentId.value);
    }
  }

  /** Lines 147-158: each resolving child identifier is taken out of the roots,
      appended in order (repetitions included) to the new node's children and
      pointed at the new node; the others are ignored. No other parent link
      changes, and no other node's children change except the parent's: an
      adopted child stays listed by its previous parent. */
  lemma AddNodeAdopts(s: State, id: Id, parentId: Option<Id>, value: string, isDeleted: bool, childIds: seq<Id>)
    requires ValidState(s) && NoCycle(s, id, parentId, childIds) && id !in s.index
    ensures var r := AddNodeSpec(s, id, parentId, value, isDeleted, childIds).value;
            && r.index[id].children == Resolved(s.index.Keys, id, childIds)
            && (forall c :: c in childIds && c in s.index ==> r.index[c].parent == Some(id) && c !in r.roots)
            && (forall k :: k in s.index && k !in childIds ==> r.index[k].parent == s.index[k].parent)
            && (forall k :: k in s.index && k in s.roots && k !in childIds ==> k in r.roots)
            && (forall k :: k in s.index && !(HasParent(s.index, parentId) && k == parentId.value) ==>
                  r.index[k].children == s.index[k].children)
            && (forall k :: k in s.index ==> r.index[k].value == s.index[k].value)
  {
    var r := AddNodeSpec(s, id, parentId, value, isDeleted, childIds).value;
    AddNodeNewNode(s, id, parentId, value, isDeleted, childIds);
    AddNodeRoots(s, id, parentId, value, isDeleted, childIds);
    forall k | k in s.index
      ensures k in childIds ==> r.index[k].parent == Some(id)
      ensures k !in childIds ==> r.index[k].parent == s.index[k].parent
      ensures !(HasParent(s.index, parentId) && k == parentId.value) ==> r.index[k].children == s.index[k].children
      ensures r.index[k].value == s.index[k].value
    {
      AddNodeOldNode(s, id, parentId, value, isDeleted, childIds, k);
      assert s.index[k].children + [] == s.index[k].children;
    }
  }

  /** Lines 160-162: when the new node or its parent is deleted, the whole
      subtree of the new node is deleted afterwards, adopted children included;
      otherwise no tombstone flag changes. No flag is ever cleared. */
  lemma AddNodeCascade(s: State, id: Id, parentId: Option<Id>, value: string, isDeleted: bool, childIds: seq<Id>)
    requires ValidState(s) && NoCycle(s, id, parentId, childIds) && id !in s.index
    ensures var r := AddNodeSpec(s, id, parentId, value, isDeleted, childIds).value;
            && (DeletesSubtree(s, parentId, isDeleted) ==>
                  && (forall x :: x in Subtree(r.index, id) ==> r.index[x].isDeleted)
                  && (forall c :: c in childIds && c in s.index ==> r.index[c].isDeleted)
                  && (forall k :: k in s.index ==>
                        r.index[k].isDeleted == (s.index[k].isDeleted || k in Subtree(r.index, id))))
            && (!DeletesSubtree(s, parentId, isDeleted) ==>
                  && !r.index[id].isDeleted
                  && forall k :: k in s.index ==> r.index[k].isDeleted == s.index[k].isDeleted)
  {
    var r := AddNodeSpec(s, id, parentId, value, isDeleted, childIds).value;
    AddNodeNewNode(s, id, parentId, value, isDeleted, childIds);
    forall k | k in s.index
      ensures r.index[k].isDeleted ==
              (s.index[k].isDeleted || (DeletesSubtree(s, parentId, isDeleted) && k in Subtree(r.index, id)))
    {
      AddNodeOldNode(s, id, parentId, value, isDeleted, childIds, k);
    }
    if DeletesSubtree(s, parentId, isDeleted) {
      SubtreeUnfold(r.index, id);
      forall c | c in childIds && c in s.index ensures c in Subtree(r.index, id) {
        var a := Adopted(s, id, childIds);
        assert c in a;
        var j :| 0 <= j < |a| && a[j] == c;
        assert r.index[id].children[j] == c;
        assert Subtree(r.index, c)[0] == c;
        ForestContains(r.index, r.index[id].children, j, c);
      }
    }
  }

  /** The link changes AddNode makes to s, with p the resolved parent and a
      the adopted children. */
  ghost predicate Relinked(s: State, r: State, id: Id, p: Option<Id>, a: seq<Id>) {
    && r.index.Keys == s.index.Keys + {id}
    && r.index[id].parent == p && r.index[id].children == a
    && (forall k :: k in s.index ==> r.index[k].parent == if k in a then Some(id) else s.index[k].parent)
    && (forall k :: k in s.index ==> r.index[k].children == s.index[k].children + if p == Some(k) then [id] else [])
    && r.roots == FilterOut(s.roots, a) + if p.None? then [id] else []
  }

  /** What the well-formedness argument needs of the relinking. */
  ghost predicate RelinkFits(s: State, r: State, id: Id, p: Option<Id>, a: seq<Id>) {
    && WellFormed(s) && Closed(r.index) && id !in s.index
    && Relinked(s, r, id, p, a)
    && (p.Some? ==> p.value in s.index)
    && (forall c :: c in a ==> c in s.index && c in s.roots)
    && Distinct(a)
  }

  lemma RelinkedChildrenAtNew(s: State, r: State, id: Id, p: Option<Id>, a: seq<Id>)
    requires RelinkFits(s, r, id, p, a)
    ensures forall i :: 0 <= i < |r.index[id].children| ==> r.index[r.index[id].children[i]].parent == Some(id)
    ensures Distinct(r.index[id].children)
  {
    forall i | 0 <= i < |a| ensures r.index[a[i]].parent == Some(id) {
      assert a[i] in s.index;
    }
  }

  lemma RelinkedChildrenAtOld(s: State, r: State, id: Id, p: Option<Id>, a: seq<Id>, k: Id)
    requires RelinkFits(s, r, id, p, a) && k in s.index
    ensures forall i :: 0 <= i < |r.index[k].children| ==> r.index[r.index[k].children[i]].parent == Some(k)
    ensures Distinct(r.index[k].children)
  {
    var cs := s.index[k].children;
    var rk := r.index[k].children;
    assert ProperAt(s, k);
    forall i | 0 <= i < |rk| ensures r.index[rk[i]].parent == Some(k) {
      if i < |cs| {
        assert ProperAt(s, cs[i]);
        assert cs[i] !in a;
      }
    }
    if p == Some(k) {
      AppendFreshDistinct(cs, id);
    } else {
      assert rk == cs + [];
    }
  }

  lemma RelinkedParentAtNew(s: State, r: State, id: Id, p: Option<Id>, a: seq<Id>)
    requires RelinkFits(s, r, id, p, a)
    ensures r.index[id].parent == None <==> id in r.roots
    ensures r.index[id].parent.Some? ==> id in r.index[r.index[id].parent.value].children
  {
    var base := FilterOut(s.roots, a);
    assert id !in s.roots;
    if p.Some? {
      var pc := s.index[p.value].children;
      assert r.index[p.value].children == pc + [id];
      assert (pc + [id])[|pc|] == id;
      assert r.roots == base + [];
    } else {
      assert (base + [id])[|base|] == id;
    }
  }

  lemma RelinkedParentAtOld(s: State, r: State, id: Id, p: Option<Id>, a: seq<Id>, k: Id)
    requires RelinkFits(s, r, id, p, a) && k in s.index
    ensures r.index[k].parent == None <==> k in r.roots
    ensures r.index[k].parent.Some? ==> k in r.index[r.index[k].parent.value].children
  {
    assert ProperAt(s, k);
    assert k in r.roots <==> k in FilterOut(s.roots, a);
    if k !in a && s.index[k].parent.Some? {
      var q := s.index[k].parent.value;
      var qc := s.index[q].children;
      var j :| 0 <= j < |qc| && qc[j] == k;
      assert r.index[q].children[j] == k;
    }
  }

  /** AddNode's effect is such a relinking. */
  lemma AddNodeRelinks(s: State, id: Id, parentId: Option<Id>, value: string, isDeleted: bool, childIds: seq<Id>)
    requires ValidState(s) && NoCycle(s, id, parentId, childIds) && id !in s.index
    ensures Relinked(s, AddNodeSpec(s, id, parentId, value, isDeleted, childIds).value, id,
                     if HasParent(s.index, parentId) then parentId else None, Adopted(s, id, childIds))
  {
    var r := AddNodeSpec(s, id, parentId, value, isDeleted, childIds).value;
    var p := if HasParent(s.index, parentId) then parentId else None;
    var a := Adopted(s, id, childIds);
    AddNodeNewLinks(s, id, parentId, value, isDeleted, childIds);
    AddNodeRoots(s, id, parentId, value, isDeleted, childIds);
    forall k | k in s.index
      ensures r.index[k].parent == if k in a then Some(id) else s.index[k].parent
      ensures r.index[k].children == s.index[k].children + if p == Some(k) then [id] else []
    {
      AddNodeLinks(s, id, parentId, value, isDeleted, childIds, k);
    }
  }

  /** When no resolving child identifier repeats and each resolves to a root
      (and NoCycle holds), AddNode keeps a proper forest proper. */
  lemma AddNodeKeepsWellFormed(s: State, id: Id, parentId: Option<Id>, value: string, isDeleted: bool, childIds: seq<Id>)
    requires WellFormed(s) && NoCycle(s, id, parentId, childIds) && id !in s.index
    requires Distinct(Adopted(s, id, childIds))
    requires forall c :: c in childIds && c in s.index ==> c in s.roots
    ensures WellFormed(AddNodeSpec(s, id, parentId, value, isDeleted, childIds).value)
  {
    var r := AddNodeSpec(s, id, parentId, value, isDeleted, childIds).value;
    var p := if HasParent(s.index, parentId) then parentId else None;
    var a := Adopted(s, id, childIds);
    AddNodeRelinks(s, id, parentId, value, isDeleted, childIds);
    assert RelinkFits(s, r, id, p, a);
    forall k | k in r.index ensures ProperAt(r, k) {
      if k == id {
        RelinkedChildrenAtNew(s, r, id, p, a);
        RelinkedParentAtNew(s, r, id, p, a);
      } else {
        RelinkedChildrenAtOld(s, r, id, p, a, k);
        RelinkedParentAtOld(s, r, id, p, a, k);
      }
    }
  }

  /** Adopting a child that is not a root leaves it in its previous parent's
      children while its parent link points at the new node, so the result is
      no longer a proper forest. */
  lemma AdoptingNonRootBreaksWellFormed(s: State, id: Id, parentId: Option<Id>, value: string, isDeleted: bool,
                                        childIds: seq<Id>, c: Id)
    requires WellFormed(s) && NoCycle(s, id, parentId, childIds) && id !in s.index
    requires c in childIds && c in s.index && c !in s.roots
    ensures var r := AddNodeSpec(s, id, parentId, value, isDeleted, childIds).value;
            && s.index[c].parent.Some?
            && c in r.index[s.index[c].parent.value].children
            && r.index[c].parent == Some(id)
            && !WellFormed(r)
  {
    var r := AddNodeSpec(s, id, parentId, value, isDeleted, childIds).value;
    assert ProperAt(s, c);
    var q := s.index[c].parent.value;
    assert c in Adopted(s, id, childIds);
    AddNodeLinks(s, id, parentId, value, isDeleted, childIds, c);
    AddNodeLinks(s, id, parentId, value, isDeleted, childIds, q);
    var j :| 0 <= j < |s.index[q].children| && s.index[q].children[j] == c;
    assert r.index[q].children[j] == c;
    assert !ProperAt(r, q);
  }

  /** An identifier repeated in childIds is appended twice to the new node's
      children, so the result is no longer a proper forest. */
  lemma RepeatedChildBreaksWellFormed(s: State, id: Id, parentId: Option<Id>, value: string, isDeleted: bool,
                                      childIds: seq<Id>, i: nat, j: nat)
    requires ValidState(s) && NoCycle(s, id, parentId, childIds) && id !in s.index
    requires i < j < |childIds| && childIds[i] == childIds[j] && childIds[i] in s.index
    ensures var r := AddNodeSpec(s, id, parentId, value, isDeleted, childIds).value;
            && !Distinct(r.index[id].children)
            && !WellFormed(r)
  {
    ResolvedKeepsRepeat(s.index.Keys, id, childIds, i, j);
    AddNodeNewNode(s, id, parentId, value, isDeleted, childIds);
  }

  /** AddNode keeps every tombstone covering its subtree: a node that joins
      the subtree of a deleted node is deleted by the cascade. */
  lemma AddNodeKeepsTombstones(s: State, id: Id, parentId: Option<Id>, value: string, isDeleted: bool, childIds: seq<Id>)
    requires ValidState(s) && NoCycle(s, id, parentId, childIds) && TombstonesClosed(s)
    ensures var r := AddNodeSpec(s, id, parentId, value, isDeleted, childIds);
            r.Success? ==> TombstonesClosed(r.value)
  {
    if id !in s.index {
      var r := AddNodeSpec(s, id, parentId, value, isDeleted, childIds).value;
      TombstonesLocal(s);
      forall k, i | k in r.index && r.index[k].isDeleted && 0 <= i < |r.index[k].children|
        ensures r.index[r.index[k].children[i]].isDeleted
      {
        AddNodeChildDeleted(s, id, parentId, value, isDeleted, childIds, k, i);
      }
      TombstonesLocal(r);
    }
  }

  /** One link of the state after AddNode leaves a deleted node. */
  lemma AddNodeChildDeleted(s: State, id: Id, parentId: Option<Id>, value: string, isDeleted: bool, childIds: seq<Id>,
                            k: Id, i: nat)
    requires ValidState(s) && NoCycle(s, id, parentId, childIds) && TombstonesInherited(s) && id !in s.index
    requires var r := AddNodeSpec(s, id, parentId, value, isDeleted, childIds).value;
             k in r.index && r.index[k].isDeleted && i < |r.index[k].children|
    ensures var r := AddNodeSpec(s, id, parentId, value, isDeleted, childIds).value;
            r.index[r.index[k].children[i]].isDeleted
  {
    var r := AddNodeSpec(s, id, parentId, value, isDeleted, childIds).value;
    var d := DeletesSubtree(s, parentId, isDeleted);
    var c := r.index[k].children[i];
    assert c in r.index;
    assert Subtree(r.index, id)[0] == id;
    AddNodeNewNode(s, id, parentId, value, isDeleted, childIds);
    if k != id {
      AddNodeOldNode(s, id, parentId, value, isDeleted, childIds, k);
    }
    if c != id {
      AddNodeOldNode(s, id, parentId, value, isDeleted, childIds, c);
    }
    if d && k in Subtree(r.index, id) {
      assert Subtree(r.index, c)[0] == c;
      ChildSubtreeWithin(r.index, k, i, c);
      SubtreeTransitive(r.index, id, k, c);
    } else if k != id && i < |s.index[k].children| {
      assert c == s.index[k].children[i];
    }
  }
}
