/** Tree.UpdateTree (ElementsTree/Tree.cs:172-200): a batch of node records is
    validated as a whole, then applied in order. A record for a known node
    changes its value and may delete its subtree; a record for an unknown node
    is inserted with AddNode. */
module Merge {
  import opened TreeNodes
  import opened Traversal
  import opened TreeState
  import opened Wiring
  import opened Insertion

  /** The identifier of the first record whose value is not 1 to 10 characters. */
  function FirstInvalid(recs: seq<TreeNode>): (r: Option<Id>)
    ensures r.None? <==> forall i :: 0 <= i < |recs| ==> ValidValue(recs[i].value)
    ensures r.Some? ==> exists i :: 0 <= i < |recs| && recs[i].id == r.value && !ValidValue(recs[i].value) &&
                                    forall j :: 0 <= j < i ==> ValidValue(recs[j].value)
  {
    if recs == [] then None
    else if !ValidValue(recs[0].value) then Some(recs[0].id)
    else
      var rest := FirstInvalid(recs[1..]);
      assert forall i :: 1 <= i < |recs| ==> recs[i] == recs[1..][i - 1];
      rest
  }

  /** The validation loop stops at the first invalid record. */
  lemma {:induction false} FirstInvalidAt(recs: seq<TreeNode>, i: nat)
    requires i < |recs| && !ValidValue(recs[i].value)
    requires forall j :: 0 <= j < i ==> ValidValue(recs[j].value)
    ensures FirstInvalid(recs) == Some(recs[i].id)
  {
    if i > 0 {
      forall j | 0 <= j < i - 1 ensures ValidValue(recs[1..][j].value) {
        assert recs[1..][j] == recs[j + 1];
      }
      FirstInvalidAt(recs[1..], i - 1);
    }
  }

  /** A record can be applied: it names a known node, or inserting it creates no cycle. */
  ghost predicate StepOk(s: State, rec: TreeNode)
    requires ValidState(s)
  {
    rec.id in s.index || NoCycle(s, rec.id, rec.parent, rec.children)
  }

  /** Lines 188-198 for one record. */
  ghost function ApplyOne(s: State, rec: TreeNode): (r: State)
    requires ValidState(s) && StepOk(s, rec)
    ensures ValidState(r)
  {
    if rec.id in s.index then
      SetValueKeepsShape(s, rec.id, rec.value);
      var t := SetValue(s, rec.id, rec.value);
      if rec.isDeleted then RemoveSpec(t, rec.id) else t
    else
      AddNodeSpec(s, rec.id, rec.parent, rec.value, rec.isDeleted, rec.children).value
  }

  /** Every record of the batch can be applied in its turn. */
  ghost predicate Mergeable(s: State, recs: seq<TreeNode>)
    requires ValidState(s)
    decreases |recs|, 1
  {
    recs == [] ||
    (Mergeable(s, recs[..|recs| - 1]) && StepOk(ApplyAll(s, recs[..|recs| - 1]), recs[|recs| - 1]))
  }

  /** The application loop (lines 183-199) over recs, in order. */
  ghost function ApplyAll(s: State, recs: seq<TreeNode>): (r: State)
    requires ValidState(s) && Mergeable(s, recs)
    ensures ValidState(r)
    decreases |recs|, 2
  {
    if recs == [] then s else ApplyOne(ApplyAll(s, recs[..|recs| - 1]), recs[|recs| - 1])
  }

  /** The precondition of UpdateTree on a batch: it only matters once every value is valid. */
  ghost predicate MergeAllowed(s: State, recs: Option<seq<TreeNode>>)
    requires ValidState(s)
  {
    recs.Some? && FirstInvalid(recs.value).None? ==> Mergeable(s, recs.value)
  }

  /** UpdateTree(newNodes). A null list changes nothing; one invalid value
      rejects the whole batch before any record is applied. */
  ghost function MergeSpec(s: State, recs: Option<seq<TreeNode>>): (r: Result<State>)
    requires ValidState(s) && MergeAllowed(s, recs)
    ensures recs.None? ==> r == Success(s)
    ensures recs.Some? ==> (r.Failure? <==> exists i :: 0 <= i < |recs.value| && !ValidValue(recs.value[i].value))
    ensures r.Failure? ==> FirstInvalid(recs.value).Some? && r.error == RecordValueLength(FirstInvalid(recs.value).value)
    ensures r.Success? ==> ValidState(r.value)
  {
    if recs.None? then Success(s)
    else match FirstInvalid(recs.value)
      case Some(bad) => Failure(RecordValueLength(bad))
      case None => Success(ApplyAll(s, recs.value))
  }

  lemma {:induction false} MergeablePrefix(s: State, recs: seq<TreeNode>, n: nat)
    requires ValidState(s) && Mergeable(s, recs) && n <= |recs|
    ensures Mergeable(s, recs[..n])
    decreases |recs|
  {
    if n < |recs| {
      assert recs[..|recs| - 1][..n] == recs[..n];
      MergeablePrefix(s, recs[..|recs| - 1], n);
    } else {
      assert recs[..n] == recs;
    }
  }

  /** Lines 188-194: a record for a known node sets its value and, when the
      record is deleted, tombstones the node's subtree; links, roots and every
      other value stay as they were, and nothing is undeleted. */
  lemma ApplyExisting(s: State, rec: TreeNode)
    requires ValidState(s) && rec.id in s.index
    ensures var r := ApplyOne(s, rec);
            && r.roots == s.roots
            && SameShape(s.index, r.index)
            && r.index[rec.id].value == rec.value
            && (forall k :: k in s.index && k != rec.id ==> r.index[k].value == s.index[k].value)
            && (forall k :: k in s.index ==> r.index[k].parent == s.index[k].parent)
            && forall k :: k in s.index ==>
                 r.index[k].isDeleted == (s.index[k].isDeleted || (rec.isDeleted && k in Subtree(s.index, rec.id)))
  {
    var t := SetValue(s, rec.id, rec.value);
    SetValueKeepsShape(s, rec.id, rec.value);
    if rec.isDeleted {
      RemoveMarksExactlySubtree(t, rec.id);
      SubtreeSameShape(s.index, t.index, rec.id);
    }
  }

  /** One record, whichever branch it takes: the index gains its identifier,
      the node ends with the record's value, a deleted record leaves the node
      deleted, other values stay, and no tombstone is cleared. */
  lemma ApplyOneEffect(s: State, rec: TreeNode)
    requires ValidState(s) && StepOk(s, rec)
    ensures var r := ApplyOne(s, rec);
            && r.index.Keys == s.index.Keys + {rec.id}
            && r.index[rec.id].value == rec.value
            && (rec.isDeleted ==> r.index[rec.id].isDeleted)
            && (forall k :: k in s.index && k != rec.id ==> r.index[k].value == s.index[k].value)
            && (forall k :: k in s.index && s.index[k].isDeleted ==> r.index[k].isDeleted)
  {
    if rec.id in s.index {
      ApplyExisting(s, rec);
      assert Subtree(s.index, rec.id)[0] == rec.id;
    } else {
      AddNodeInserts(s, rec.id, rec.parent, rec.value, rec.isDeleted, rec.children);
      AddNodeAdopts(s, rec.id, rec.parent, rec.value, rec.isDeleted, rec.children);
      AddNodeCascade(s, rec.id, rec.parent, rec.value, rec.isDeleted, rec.children);
    }
  }

  /** The identifiers the batch names. */
  function RecordIds(recs: seq<TreeNode>): (ids: set<Id>)
    ensures forall x :: x in ids <==> exists i :: 0 <= i < |recs| && recs[i].id == x
    decreases |recs|
  {
    if recs == [] then {}
    else
      var m := RecordIds(recs[..|recs| - 1]);
      assert forall i :: 0 <= i < |recs| - 1 ==> recs[..|recs| - 1][i] == recs[i];
      m + {recs[|recs| - 1].id}
  }

  /** After the merge the index holds the known nodes and every record's node. */
  lemma {:induction false} MergeKeys(s: State, recs: seq<TreeNode>)
    requires ValidState(s) && Mergeable(s, recs)
    ensures ApplyAll(s, recs).index.Keys == s.index.Keys + RecordIds(recs)
    decreases |recs|
  {
    if recs != [] {
      var front, rec := recs[..|recs| - 1], recs[|recs| - 1];
      MergeKeys(s, front);
      ApplyOneEffect(ApplyAll(s, front), rec);
      assert ApplyAll(s, recs) == ApplyOne(ApplyAll(s, front), rec);
    }
  }

  /** A node that no record names keeps its value, and no tombstone is ever cleared. */
  lemma {:induction false} MergeKeepsOthers(s: State, recs: seq<TreeNode>)
    requires ValidState(s) && Mergeable(s, recs)
    ensures var r := ApplyAll(s, recs);
            && (forall k :: k in s.index ==> k in r.index)
            && (forall k :: k in s.index && k !in RecordIds(recs) ==> r.index[k].value == s.index[k].value)
            && (forall k :: k in s.index && s.index[k].isDeleted ==> r.index[k].isDeleted)
    decreases |recs|
  {
    if recs != [] {
      var front, rec := recs[..|recs| - 1], recs[|recs| - 1];
      MergeKeepsOthers(s, front);
      var m := ApplyAll(s, front);
      ApplyOneEffect(m, rec);
      assert ApplyAll(s, recs) == ApplyOne(m, rec);
      assert RecordIds(recs) == RecordIds(front) + {rec.id};
    }
  }

  /** A record leaves the values of other nodes alone. */
  lemma ApplyOneKeepsValue(m: State, rec: TreeNode, x: Id)
    requires ValidState(m) && StepOk(m, rec)
    requires x in m.index && x != rec.id
    ensures x in ApplyOne(m, rec).index && ApplyOne(m, rec).index[x].value == m.index[x].value
  {
    ApplyOneEffect(m, rec);
  }

  /** A record gives its node the record's value. */
  lemma ApplyOneSets(m: State, rec: TreeNode)
    requires ValidState(m) && StepOk(m, rec)
    ensures rec.id in ApplyOne(m, rec).index && ApplyOne(m, rec).index[rec.id].value == rec.value
  {
    ApplyOneEffect(m, rec);
  }

  /** A last record for another node keeps this node's value. */
  lemma MergeKeepsValueStep(s: State, recs: seq<TreeNode>, x: Id)
    requires ValidState(s) && Mergeable(s, recs) && recs != []
    requires Mergeable(s, recs[..|recs| - 1]) && x != recs[|recs| - 1].id
    requires x in ApplyAll(s, recs[..|recs| - 1]).index
    ensures x in ApplyAll(s, recs).index
    ensures ApplyAll(s, recs).index[x].value == ApplyAll(s, recs[..|recs| - 1]).index[x].value
  {
    MergeStep(s, recs);
    ApplyOneKeepsValue(ApplyAll(s, recs[..|recs| - 1]), recs[|recs| - 1], x);
  }

  /** The last record gives its node its value. */
  lemma MergeSetsLast(s: State, recs: seq<TreeNode>)
    requires ValidState(s) && Mergeable(s, recs) && recs != []
    ensures recs[|recs| - 1].id in ApplyAll(s, recs).index
    ensures ApplyAll(s, recs).index[recs[|recs| - 1].id].value == recs[|recs| - 1].value
  {
    MergeStep(s, recs);
    ApplyOneSets(ApplyAll(s, recs[..|recs| - 1]), recs[|recs| - 1]);
  }

  /** The last record naming a node decides its value. */
  lemma {:induction false} MergeLastWins(s: State, recs: seq<TreeNode>, i: nat)
    requires ValidState(s) && Mergeable(s, recs)
    requires i < |recs| && forall j :: i < j < |recs| ==> recs[j].id != recs[i].id
    ensures recs[i].id in ApplyAll(s, recs).index
    ensures ApplyAll(s, recs).index[recs[i].id].value == recs[i].value
    decreases |recs|
  {
    if i < |recs| - 1 {
      var front := recs[..|recs| - 1];
      MergeStep(s, recs);
      assert recs[i] == front[i];
      forall j | i < j < |front| ensures front[j].id != front[i].id {
        assert front[j] == recs[j];
      }
      MergeLastWins(s, front, i);
      MergeKeepsValueStep(s, recs, recs[i].id);
    } else {
      MergeSetsLast(s, recs);
    }
  }

  /** A tombstone survives one more record. */
  lemma ApplyOneKeepsDeleted(m: State, rec: TreeNode, x: Id)
    requires ValidState(m) && StepOk(m, rec)
    requires x in m.index && m.index[x].isDeleted
    ensures x in ApplyOne(m, rec).index && ApplyOne(m, rec).index[x].isDeleted
  {
    ApplyOneEffect(m, rec);
  }

  /** A deleted record leaves its own node deleted. */
  lemma ApplyOneDeletes(m: State, rec: TreeNode)
    requires ValidState(m) && StepOk(m, rec) && rec.isDeleted
    ensures rec.id in ApplyOne(m, rec).index && ApplyOne(m, rec).index[rec.id].isDeleted
  {
    ApplyOneEffect(m, rec);
  }

  /** The last record of a batch keeps every earlier tombstone. */
  lemma MergeKeepsDeletedStep(s: State, recs: seq<TreeNode>, x: Id)
    requires ValidState(s) && Mergeable(s, recs) && recs != []
    requires Mergeable(s, recs[..|recs| - 1])
    requires x in ApplyAll(s, recs[..|recs| - 1]).index && ApplyAll(s, recs[..|recs| - 1]).index[x].isDeleted
    ensures x in ApplyAll(s, recs).index && ApplyAll(s, recs).index[x].isDeleted
  {
    MergeStep(s, recs);
    ApplyOneKeepsDeleted(ApplyAll(s, recs[..|recs| - 1]), recs[|recs| - 1], x);
  }

  /** A deleted last record leaves its node deleted. */
  lemma MergeDeletesLast(s: State, recs: seq<TreeNode>)
    requires ValidState(s) && Mergeable(s, recs) && recs != [] && recs[|recs| - 1].isDeleted
    ensures recs[|recs| - 1].id in ApplyAll(s, recs).index
    ensures ApplyAll(s, recs).index[recs[|recs| - 1].id].isDeleted
  {
    MergeStep(s, recs);
    ApplyOneDeletes(ApplyAll(s, recs[..|recs| - 1]), recs[|recs| - 1]);
  }

  /** Every deleted record leaves its node deleted. */
  lemma {:induction false} MergeDeletes(s: State, recs: seq<TreeNode>, i: nat)
    requires ValidState(s) && Mergeable(s, recs)
    requires i < |recs| && recs[i].isDeleted
    ensures recs[i].id in ApplyAll(s, recs).index
    ensures ApplyAll(s, recs).index[recs[i].id].isDeleted
    decreases |recs|
  {
    if i < |recs| - 1 {
      var front := recs[..|recs| - 1];
      MergeStep(s, recs);
      assert recs[i] == front[i];
      MergeDeletes(s, front, i);
      MergeKeepsDeletedStep(s, recs, recs[i].id);
    } else {
      MergeDeletesLast(s, recs);
    }
  }

  /** One turn of the application loop. */
  lemma MergeStep(s: State, recs: seq<TreeNode>)
    requires ValidState(s) && Mergeable(s, recs) && recs != []
    ensures Mergeable(s, recs[..|recs| - 1])
    ensures StepOk(ApplyAll(s, recs[..|recs| - 1]), recs[|recs| - 1])
    ensures ApplyAll(s, recs) == ApplyOne(ApplyAll(s, recs[..|recs| - 1]), recs[|recs| - 1])
  {
  }

  /** A record, whichever branch it takes, keeps every tombstone covering its subtree. */
  lemma ApplyOneKeepsTombstones(s: State, rec: TreeNode)
    requires ValidState(s) && StepOk(s, rec) && TombstonesClosed(s)
    ensures TombstonesClosed(ApplyOne(s, rec))
  {
    if rec.id in s.index {
      SetValueKeepsTombstones(s, rec.id, rec.value);
      if rec.isDeleted {
        RemoveKeepsTombstones(SetValue(s, rec.id, rec.value), rec.id);
      }
    } else {
      AddNodeKeepsTombstones(s, rec.id, rec.parent, rec.value, rec.isDeleted, rec.children);
    }
  }

  /** The application loop keeps every tombstone covering its subtree. */
  lemma {:induction false} ApplyAllKeepsTombstones(s: State, recs: seq<TreeNode>)
    requires ValidState(s) && Mergeable(s, recs) && TombstonesClosed(s)
    ensures TombstonesClosed(ApplyAll(s, recs))
    decreases |recs|
  {
    if recs != [] {
      MergeStep(s, recs);
      ApplyAllKeepsTombstones(s, recs[..|recs| - 1]);
      ApplyOneKeepsTombstones(ApplyAll(s, recs[..|recs| - 1]), recs[|recs| - 1]);
    }
  }

  /** UpdateTree keeps every tombstone covering its subtree. */
  lemma MergeKeepsTombstones(s: State, recs: Option<seq<TreeNode>>)
    requires ValidState(s) && MergeAllowed(s, recs) && TombstonesClosed(s)
    ensures MergeSpec(s, recs).Success? ==> TombstonesClosed(MergeSpec(s, recs).value)
  {
    if recs.Some? && FirstInvalid(recs.value).None? {
      ApplyAllKeepsTombstones(s, recs.value);
    }
  }
}
