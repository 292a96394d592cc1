/** The abstract state of a Tree (ElementsTree/Tree.cs): the identifier index
    and the ordered root list, together with the operations that do not
    insert nodes: cascading soft delete and value change. */
module TreeState {
  import opened TreeNodes
  import opened IdLists
  import opened Traversal

  /** TreeException, identified by the check that raised it. The localized
      message texts are not modelled; the identifier a message names is. */
  datatype TreeError =
    | DuplicateId(id: Id)        // AddNode: the identifier is already in the tree
    | NodeAbsent                 // ChangeNodeValue: no node has this identifier
    | ValueLength                // ChangeNodeValue: the value is not 1 to 10 characters
    | RecordValueLength(id: Id)  // UpdateTree: this record's value is not 1 to 10 characters

  datatype Result<T> = Success(value: T) | Failure(error: TreeError)

  /** The outcome of an operation that returns nothing or throws. */
  datatype Outcome = Pass | Fail(error: TreeError)

  /** idToNodes and rootNodes. */
  datatype State = State(index: map<Id, TreeNode>, roots: seq<Id>)

  const MaxValueLength: nat := 10

  /** string.IsNullOrEmpty(v) || v.Length > 10 is false. */
  predicate ValidValue(v: string) {
    1 <= |v| <= MaxValueLength
  }

  /** What every operation needs: a closed, acyclic arena whose roots are
      indexed nodes, each listed once. */
  ghost predicate ValidState(s: State) {
    && Traversable(s.index)
    && (forall i :: 0 <= i < |s.roots| ==> s.roots[i] in s.index)
    && Distinct(s.roots)
  }

  /** Node k sits properly in a forest: it is a root exactly when it has no
      parent, its children point back to it, its parent lists it, and it
      lists no child twice. */
  ghost predicate ProperAt(s: State, k: Id)
    requires Closed(s.index) && k in s.index
  {
    && (s.index[k].parent == None <==> k in s.roots)
    && (forall i :: 0 <= i < |s.index[k].children| ==> s.index[s.index[k].children[i]].parent == Some(k))
    && (s.index[k].parent.Some? ==> k in s.index[s.index[k].parent.value].children)
    && Distinct(s.index[k].children)
  }

  /** A proper forest: every node sits properly. */
  ghost predicate WellFormed(s: State) {
    ValidState(s) && forall k :: k in s.index ==> ProperAt(s, k)
  }

  /** A tombstone covers the whole subtree: every node in the flattening of a
      deleted node is deleted. */
  ghost predicate TombstonesClosed(s: State)
    requires Traversable(s.index)
  {
    forall k, x :: k in s.index && s.index[k].isDeleted && x in Subtree(s.index, k) ==> s.index[x].isDeleted
  }

  /** The same invariant link by link: every child of a deleted node is deleted. */
  ghost predicate TombstonesInherited(s: State)
    requires Closed(s.index)
  {
    forall k, i :: k in s.index && s.index[k].isDeleted && 0 <= i < |s.index[k].children| ==>
      s.index[s.index[k].children[i]].isDeleted
  }

  lemma {:induction false} InheritedCovers(s: State, k: Id, x: Id)
    requires Traversable(s.index) && TombstonesInherited(s)
    requires k in s.index && s.index[k].isDeleted && x in Subtree(s.index, k)
    ensures s.index[x].isDeleted
    decreases TheRank(s.index)[k]
  {
    if x != k {
      var cs := s.index[k].children;
      SubtreeUnfold(s.index, k);
      var j := ForestMember(s.index, cs, x);
      InheritedCovers(s, cs[j], x);
    }
  }

  /** The subtree invariant holds exactly when it holds along every link. */
  lemma TombstonesLocal(s: State)
    requires Traversable(s.index)
    ensures TombstonesClosed(s) <==> TombstonesInherited(s)
  {
    if TombstonesClosed(s) {
      forall k, i | k in s.index && s.index[k].isDeleted && 0 <= i < |s.index[k].children|
        ensures s.index[s.index[k].children[i]].isDeleted
      {
        var c := s.index[k].children[i];
        assert Subtree(s.index, c)[0] == c;
        ChildSubtreeWithin(s.index, k, i, c);
      }
    }
    if TombstonesInherited(s) {
      forall k, x | k in s.index && s.index[k].isDeleted && x in Subtree(s.index, k)
        ensures s.index[x].isDeleted
      {
        InheritedCovers(s, k, x);
      }
    }
  }

  /** The loop of RemoveNode(node): IsDeleted = true for each listed node, in order. */
  function MarkDeleted(idx: map<Id, TreeNode>, ids: seq<Id>): (r: map<Id, TreeNode>)
    requires forall x :: x in ids ==> x in idx
    ensures r.Keys == idx.Keys
    decreases |ids|
  {
    if ids == [] then idx
    else
      var m := MarkDeleted(idx, ids[..|ids| - 1]);
      var x := ids[|ids| - 1];
      m[x := m[x].(isDeleted := true)]
  }

  /** Exactly the listed nodes end up deleted; nothing else about any node changes. */
  lemma {:induction false} MarkDeletedEffect(idx: map<Id, TreeNode>, ids: seq<Id>)
    requires forall x :: x in ids ==> x in idx
    ensures forall k :: k in idx ==>
              MarkDeleted(idx, ids)[k] == idx[k].(isDeleted := idx[k].isDeleted || k in ids)
    decreases |ids|
  {
    if ids != [] {
      var front := ids[..|ids| - 1];
      MarkDeletedEffect(idx, front);
      forall k | k in idx
        ensures MarkDeleted(idx, ids)[k] == idx[k].(isDeleted := idx[k].isDeleted || k in ids)
      {
        assert k in ids <==> k in front || k == ids[|ids| - 1] by {
          assert ids == front + [ids[|ids| - 1]];
        }
      }
    }
  }

  lemma MarkDeletedShape(idx: map<Id, TreeNode>, ids: seq<Id>)
    requires Closed(idx)
    requires forall x :: x in ids ==> x in idx
    ensures Closed(MarkDeleted(idx, ids)) && SameShape(idx, MarkDeleted(idx, ids))
  {
    MarkDeletedEffect(idx, ids);
  }

  /** The private RemoveNode(node) on an indexed node. */
  ghost function RemoveSpec(s: State, id: Id): (r: State)
    requires ValidState(s) && id in s.index
    ensures ValidState(r)
  {
    var sub := Subtree(s.index, id);
    MarkDeletedShape(s.index, sub);
    SubtreeSameShape(s.index, MarkDeleted(s.index, sub), id);
    State(MarkDeleted(s.index, sub), s.roots)
  }

  /** RemoveNode tombstones exactly GetForest(node) and changes nothing else:
      values, links, the index and the roots stay as they were. */
  lemma RemoveMarksExactlySubtree(s: State, id: Id)
    requires ValidState(s) && id in s.index
    ensures RemoveSpec(s, id).roots == s.roots
    ensures RemoveSpec(s, id).index.Keys == s.index.Keys
    ensures forall k :: k in s.index ==>
              RemoveSpec(s, id).index[k] ==
              s.index[k].(isDeleted := s.index[k].isDeleted || k in Subtree(s.index, id))
  {
    MarkDeletedEffect(s.index, Subtree(s.index, id));
  }

  /** Removing twice is removing once. */
  lemma RemoveIdempotent(s: State, id: Id)
    requires ValidState(s) && id in s.index
    ensures RemoveSpec(RemoveSpec(s, id), id) == RemoveSpec(s, id)
  {
    var once := RemoveSpec(s, id);
    RemoveMarksExactlySubtree(s, id);
    RemoveMarksExactlySubtree(once, id);
    MarkDeletedShape(s.index, Subtree(s.index, id));
    SubtreeSameShape(s.index, once.index, id);
    var twice := RemoveSpec(once, id);
    assert twice.index == once.index;
  }

  /** The ancestors of the removed node keep their tombstone flags. */
  lemma RemoveKeepsAncestors(s: State, id: Id, k: Id)
    requires ValidState(s) && id in s.index && k in s.index
    requires k != id && id in Subtree(s.index, k)
    ensures RemoveSpec(s, id).index[k] == s.index[k]
  {
    AncestorNotInSubtree(s.index, id, k);
    RemoveMarksExactlySubtree(s, id);
  }

  /** Removal keeps a proper forest proper. */
  lemma RemoveKeepsWellFormed(s: State, id: Id)
    requires WellFormed(s) && id in s.index
    ensures WellFormed(RemoveSpec(s, id))
  {
    RemoveMarksExactlySubtree(s, id);
  }

  /** Removal keeps every tombstone covering its subtree. */
  lemma RemoveKeepsTombstones(s: State, id: Id)
    requires ValidState(s) && id in s.index && TombstonesClosed(s)
    ensures TombstonesClosed(RemoveSpec(s, id))
  {
    var r := RemoveSpec(s, id);
    RemoveMarksExactlySubtree(s, id);
    TombstonesLocal(s);
    forall k, i | k in r.index && r.index[k].isDeleted && 0 <= i < |r.index[k].children|
      ensures r.index[r.index[k].children[i]].isDeleted
    {
      var c := s.index[k].children[i];
      if !s.index[k].isDeleted {
        assert Subtree(s.index, c)[0] == c;
        ChildSubtreeWithin(s.index, k, i, c);
        SubtreeTransitive(s.index, id, k, c);
      }
    }
    TombstonesLocal(r);
  }

  /** The assignment node.Value = v on an indexed node. */
  function SetValue(s: State, id: Id, v: string): (r: State)
    requires id in s.index
    ensures r.roots == s.roots && r.index.Keys == s.index.Keys
    ensures r.index[id].value == v
  {
    State(s.index[id := s.index[id].(value := v)], s.roots)
  }

  /** ChangeNodeValue(id, v): an absent node is reported first, then a value
      that is not 1 to 10 characters; otherwise only that node's value changes. */
  function ChangeValueSpec(s: State, id: Id, v: string): (r: Result<State>)
    ensures id !in s.index ==> r == Failure(NodeAbsent)
    ensures id in s.index && !ValidValue(v) ==> r == Failure(ValueLength)
    ensures r.Success? <==> id in s.index && ValidValue(v)
    ensures r.Success? ==>
              && r.value.roots == s.roots
              && r.value.index.Keys == s.index.Keys
              && r.value.index[id] == s.index[id].(value := v)
              && forall k :: k in s.index && k != id ==> r.value.index[k] == s.index[k]
  {
    if id !in s.index then Failure(NodeAbsent)
    else if !ValidValue(v) then Failure(ValueLength)
    else Success(SetValue(s, id, v))
  }

  /** A value change keeps the state valid and a proper forest proper. */
  lemma SetValueKeepsShape(s: State, id: Id, v: string)
    requires ValidState(s) && id in s.index
    ensures SameShape(s.index, SetValue(s, id, v).index)
    ensures ValidState(SetValue(s, id, v))
    ensures WellFormed(s) ==> WellFormed(SetValue(s, id, v))
  {
    var r := SetValue(s, id, v);
    assert forall k :: k in s.index ==>
      r.index[k].parent == s.index[k].parent && r.index[k].children == s.index[k].children && r.index[k].id == s.index[k].id;
    assert Closed(r.index);
    SameShapeRank(s.index, r.index, TheRank(s.index));
    if WellFormed(s) {
      forall k | k in r.index ensures ProperAt(r, k) {
        assert ProperAt(s, k);
      }
    }
  }

  /** A value change keeps every tombstone covering its subtree. */
  lemma SetValueKeepsTombstones(s: State, id: Id, v: string)
    requires ValidState(s) && id in s.index && TombstonesClosed(s)
    ensures ValidState(SetValue(s, id, v)) && TombstonesClosed(SetValue(s, id, v))
  {
    var r := SetValue(s, id, v);
    SetValueKeepsShape(s, id, v);
    TombstonesLocal(s);
    assert forall k :: k in s.index ==>
      r.index[k].isDeleted == s.index[k].isDeleted && r.index[k].children == s.index[k].children;
    TombstonesLocal(r);
  }
}
