/** The structural part of Tree.AddNode (ElementsTree/Tree.cs:137-158): the new
    record is attached to its parent or to the roots, then adopts the
    existing nodes named by childIds.

    The new record enters the arena before it is wired (the source registers
    it last, at line 164). Every lookup below therefore excludes the new
    identifier itself, which is what the source's lookups in the index as it
    was before the call give. */
module Wiring {
  import opened TreeNodes
  import opened IdLists
  import opened Traversal
  import opened TreeState

  /** parentId.HasValue && idToNodes.TryGetValue(parentId.Value, out parent). */
  predicate HasParent(idx: map<Id, TreeNode>, parentId: Option<Id>) {
    parentId.Some? && parentId.value in idx
  }

  /** Lines 137-144: the new record becomes the parent's last child, or the last root. */
  function Attach(s: State, id: Id, parentId: Option<Id>, value: string, isDeleted: bool): (r: State)
    requires id !in s.index
    ensures r.index.Keys == s.index.Keys + {id}
  {
    var idx := s.index[id := NewNode(id, value, isDeleted)];
    if HasParent(s.index, parentId) then State(AddChild(idx, parentId.value, id), s.roots)
    else State(idx, s.roots + [id])
  }

  /** One pass of the adoption loop (lines 151-156): a resolving child leaves
      the roots if it is one, and is added as the new node's last child. */
  function AdoptOne(s: State, newId: Id, c: Id): (r: State)
    requires newId in s.index
    ensures r.index.Keys == s.index.Keys
  {
    if c != newId && c in s.index then
      State(AddChild(s.index, newId, c), if c in s.roots then RemoveFirst(s.roots, c) else s.roots)
    else s
  }

  /** The adoption loop over cs, in order. */
  function Adopt(s: State, newId: Id, cs: seq<Id>): (r: State)
    requires newId in s.index
    ensures r.index.Keys == s.index.Keys
    decreases |cs|
  {
    if cs == [] then s else AdoptOne(Adopt(s, newId, cs[..|cs| - 1]), newId, cs[|cs| - 1])
  }

  /** Lines 137-158: attach, then adopt. */
  function Wire(s: State, id: Id, parentId: Option<Id>, value: string, isDeleted: bool, childIds: seq<Id>): (w: State)
    requires id !in s.index
    ensures w.index.Keys == s.index.Keys + {id}
  {
    Adopt(Attach(s, id, parentId, value, isDeleted), id, childIds)
  }

  /** The identifiers of cs that resolve to a node other than newId, in order, repetitions kept. */
  function Resolved(keys: set<Id>, newId: Id, cs: seq<Id>): (r: seq<Id>)
    ensures forall c :: c in r <==> c in cs && c != newId && c in keys
    ensures |r| <= |cs|
    decreases |cs|
  {
    if cs == [] then []
    else
      var c := cs[|cs| - 1];
      Resolved(keys, newId, cs[..|cs| - 1]) + (if c != newId && c in keys then [c] else [])
  }

  /** The child identifiers that AddNode adopts. */
  function Adopted(s: State, id: Id, childIds: seq<Id>): (a: seq<Id>)
    ensures forall c :: c in a <==> c in childIds && c in s.index && c != id
  {
    Resolved(s.index.Keys, id, childIds)
  }

  /** The requirement that keeps the arena acyclic: no resolving child is the
      resolved parent or one of its ancestors. */
  ghost predicate NoCycle(s: State, id: Id, parentId: Option<Id>, childIds: seq<Id>)
    requires Traversable(s.index)
  {
    id !in s.index && HasParent(s.index, parentId) ==>
      forall c :: c in childIds && c in s.index ==> parentId.value !in Subtree(s.index, c)
  }

  lemma {:induction false} ResolvedMoreKeys(keys: set<Id>, newId: Id, cs: seq<Id>)
    ensures Resolved(keys + {newId}, newId, cs) == Resolved(keys, newId, cs)
    decreases |cs|
  {
    if cs != [] {
      ResolvedMoreKeys(keys, newId, cs[..|cs| - 1]);
    }
  }

  lemma {:induction false} ResolvedAppend(keys: set<Id>, newId: Id, a: seq<Id>, b: seq<Id>)
    ensures Resolved(keys, newId, a + b) == Resolved(keys, newId, a) + Resolved(keys, newId, b)
    decreases |b|
  {
    if b == [] {
      assert a + b == a;
    } else {
      assert (a + b)[..|a + b| - 1] == a + b[..|b| - 1];
      ResolvedAppend(keys, newId, a, b[..|b| - 1]);
    }
  }

  lemma {:induction false} ResolvedDistinct(keys: set<Id>, newId: Id, cs: seq<Id>)
    requires Distinct(cs)
    ensures Distinct(Resolved(keys, newId, cs))
    decreases |cs|
  {
    if cs != [] {
      var front := cs[..|cs| - 1];
      assert Distinct(front) by {
        forall i, j | 0 <= i < j < |front| ensures front[i] != front[j] {
          assert front[i] == cs[i] && front[j] == cs[j];
        }
      }
      ResolvedDistinct(keys, newId, front);
      assert cs[|cs| - 1] !in front by {
        forall i | 0 <= i < |front| ensures front[i] != cs[|cs| - 1] {
          assert front[i] == cs[i];
        }
      }
    }
  }

  /** A resolving identifier that occurs twice in cs occurs twice in the result. */
  lemma {:induction false} ResolvedKeepsRepeat(keys: set<Id>, newId: Id, cs: seq<Id>, i: nat, j: nat)
    requires i < j < |cs| && cs[i] == cs[j] && cs[i] in keys && cs[i] != newId
    ensures !Distinct(Resolved(keys, newId, cs))
    decreases |cs|
  {
    var front := cs[..|cs| - 1];
    var rf := Resolved(keys, newId, front);
    if j == |cs| - 1 {
      assert front[i] == cs[i];
      assert cs[i] in rf;
      var p :| 0 <= p < |rf| && rf[p] == cs[i];
      var r := Resolved(keys, newId, cs);
      assert r == rf + [cs[j]];
      assert r[p] == r[|rf|];
    } else {
      assert front[i] == cs[i] && front[j] == cs[j];
      ResolvedKeepsRepeat(keys, newId, front, i, j);
      var p, q :| 0 <= p < q < |rf| && rf[p] == rf[q];
      var r := Resolved(keys, newId, cs);
      assert r[p] == rf[p] && r[q] == rf[q];
    }
  }

  /** One adoption pass appends a resolving child to the new node's children. */
  lemma AdoptOneNewNode(t: State, newId: Id, c: Id)
    requires newId in t.index
    ensures AdoptOne(t, newId, c).index[newId] ==
            t.index[newId].(children := t.index[newId].children + if c != newId && c in t.index then [c] else [])
  {
    if !(c != newId && c in t.index) {
      assert t.index[newId].children + [] == t.index[newId].children;
    }
  }

  /** The adoption loop's effect on the new node: the resolving children are
      appended to its children, in order. */
  lemma {:induction false} AdoptNewNode(t: State, newId: Id, cs: seq<Id>)
    requires newId in t.index
    ensures Adopt(t, newId, cs).index[newId] ==
            t.index[newId].(children := t.index[newId].children + Resolved(t.index.Keys, newId, cs))
    decreases |cs|
  {
    if cs == [] {
      assert t.index[newId].children + [] == t.index[newId].children;
    } else {
      var front, c := cs[..|cs| - 1], cs[|cs| - 1];
      AdoptNewNode(t, newId, front);
      var r0 := Adopt(t, newId, front);
      var tc := t.index[newId].children;
      var rs0 := Resolved(t.index.Keys, newId, front);
      var ext := if c != newId && c in t.index then [c] else [];
      assert r0.index.Keys == t.index.Keys;
      assert Adopt(t, newId, cs) == AdoptOne(r0, newId, c);
      AdoptOneNewNode(r0, newId, c);
      assert Resolved(t.index.Keys, newId, cs) == rs0 + ext;
      assert (tc + rs0) + ext == tc + (rs0 + ext);
    }
  }

  /** The adoption loop's effect on any other node k: it points to the new
      node when it resolves, and is otherwise unchanged. */
  lemma {:induction false} AdoptOldNode(t: State, newId: Id, cs: seq<Id>, k: Id)
    requires newId in t.index && k in t.index && k != newId
    ensures Adopt(t, newId, cs).index[k] ==
            t.index[k].(parent := if k in Resolved(t.index.Keys, newId, cs) then Some(newId) else t.index[k].parent)
    decreases |cs|
  {
    if cs != [] {
      AdoptOldNode(t, newId, cs[..|cs| - 1], k);
    }
  }

  /** One adoption pass on roots without repetitions drops every occurrence of a resolving child. */
  lemma AdoptOneRoots(t: State, newId: Id, c: Id)
    requires newId in t.index && Distinct(t.roots)
    ensures AdoptOne(t, newId, c).roots == if c != newId && c in t.index then FilterOut(t.roots, [c]) else t.roots
  {
    if c != newId && c in t.index {
      if c in t.roots {
        RemoveFirstDistinct(t.roots, c);
      } else {
        FilterOutNothing(t.roots, [c]);
      }
    }
  }

  /** The adoption loop's effect on the roots: the resolving children leave them. */
  lemma {:induction false} AdoptRoots(t: State, newId: Id, cs: seq<Id>)
    requires newId in t.index && Distinct(t.roots)
    ensures Adopt(t, newId, cs).roots == FilterOut(t.roots, Resolved(t.index.Keys, newId, cs))
    decreases |cs|
  {
    if cs == [] {
      FilterOutNothing(t.roots, []);
    } else {
      var front, c := cs[..|cs| - 1], cs[|cs| - 1];
      AdoptRoots(t, newId, front);
      var r0 := Adopt(t, newId, front);
      var rs0 := Resolved(t.index.Keys, newId, front);
      var rs := Resolved(t.index.Keys, newId, cs);
      assert r0.index.Keys == t.index.Keys;
      assert Adopt(t, newId, cs) == AdoptOne(r0, newId, c);
      FilterOutDistinct(t.roots, rs0);
      AdoptOneRoots(r0, newId, c);
      if c != newId && c in t.index {
        assert rs == rs0 + [c];
        FilterOutTwice(t.roots, rs0, [c]);
      } else {
        assert rs == rs0;
      }
    }
  }

  /** Lines 137-144 in closed form. */
  lemma AttachShape(s: State, id: Id, parentId: Option<Id>, value: string, isDeleted: bool)
    requires id !in s.index
    ensures Attach(s, id, parentId, value, isDeleted).index[id] ==
            TreeNode(id, value, isDeleted, if HasParent(s.index, parentId) then parentId else None, [])
    ensures forall k :: k in s.index ==>
              Attach(s, id, parentId, value, isDeleted).index[k] == s.index[k].(children := NewChildren(s, id, parentId, k))
    ensures Attach(s, id, parentId, value, isDeleted).roots ==
            if HasParent(s.index, parentId) then s.roots else s.roots + [id]
  {
  }

  /** The children of an existing node k once the new node id is attached. */
  function NewChildren(s: State, id: Id, parentId: Option<Id>, k: Id): seq<Id>
    requires k in s.index
  {
    s.index[k].children + if HasParent(s.index, parentId) && k == parentId.value then [id] else []
  }

  /** The parent of an existing node k once the new node id has adopted its children. */
  function NewParent(s: State, id: Id, childIds: seq<Id>, k: Id): Option<Id>
    requires k in s.index
  {
    if k in Adopted(s, id, childIds) then Some(id) else s.index[k].parent
  }

  /** The new node after lines 137-158: its parent is the resolved parent, its
      children are the resolving child identifiers. */
  lemma WireNewNode(s: State, id: Id, parentId: Option<Id>, value: string, isDeleted: bool, childIds: seq<Id>)
    requires id !in s.index
    ensures Wire(s, id, parentId, value, isDeleted, childIds).index[id] ==
            TreeNode(id, value, isDeleted,
                     if HasParent(s.index, parentId) then parentId else None,
                     Adopted(s, id, childIds))
  {
    var t := Attach(s, id, parentId, value, isDeleted);
    AttachShape(s, id, parentId, value, isDeleted);
    AdoptNewNode(t, id, childIds);
    ResolvedMoreKeys(s.index.Keys, id, childIds);
  }

  /** An existing node k after lines 137-158: only its parent (when adopted)
      and its children (when it is the parent) change. */
  lemma WireOldNode(s: State, id: Id, parentId: Option<Id>, value: string, isDeleted: bool, childIds: seq<Id>, k: Id)
    requires id !in s.index && k in s.index
    ensures Wire(s, id, parentId, value, isDeleted, childIds).index[k] ==
            s.index[k].(parent := NewParent(s, id, childIds, k), children := NewChildren(s, id, parentId, k))
  {
    var t := Attach(s, id, parentId, value, isDeleted);
    AttachShape(s, id, parentId, value, isDeleted);
    assert k in t.index && k != id;
    AdoptOldNode(t, id, childIds, k);
    ResolvedMoreKeys(s.index.Keys, id, childIds);
  }

  /** The roots after lines 137-158: the adopted children leave, and the new
      node is appended when it has no parent. */
  lemma WireRoots(s: State, id: Id, parentId: Option<Id>, value: string, isDeleted: bool, childIds: seq<Id>)
    requires id !in s.index && Distinct(s.roots) && id !in s.roots
    ensures Wire(s, id, parentId, value, isDeleted, childIds).roots ==
            FilterOut(s.roots, Adopted(s, id, childIds)) + if HasParent(s.index, parentId) then [] else [id]
  {
    var t := Attach(s, id, parentId, value, isDeleted);
    AttachShape(s, id, parentId, value, isDeleted);
    var a := Adopted(s, id, childIds);
    ResolvedMoreKeys(s.index.Keys, id, childIds);
    if HasParent(s.index, parentId) {
      AdoptRoots(t, id, childIds);
      assert FilterOut(s.roots, a) + [] == FilterOut(s.roots, a);
    } else {
      FilterOutAppend(s.roots, [id], a);
      AppendFreshDistinct(s.roots, id);
      AdoptRoots(t, id, childIds);
      assert FilterOut([id], a) == [id];
    }
  }

  /** An upper bound on the ranks of cs. */
  function MaxRank(rank: map<Id, nat>, cs: seq<Id>): (m: nat)
    requires forall c :: c in cs ==> c in rank
    ensures forall c :: c in cs ==> rank[c] <= m
    decreases |cs|
  {
    if cs == [] then 0
    else
      var m0 := MaxRank(rank, cs[..|cs| - 1]);
      var c := cs[|cs| - 1];
      if rank[c] > m0 then rank[c] else m0
  }

  lemma WireClosed(s: State, id: Id, parentId: Option<Id>, value: string, isDeleted: bool, childIds: seq<Id>)
    requires ValidState(s) && id !in s.index
    ensures Closed(Wire(s, id, parentId, value, isDeleted, childIds).index)
  {
    var w := Wire(s, id, parentId, value, isDeleted, childIds);
    WireNewNode(s, id, parentId, value, isDeleted, childIds);
    forall k | k in w.index
      ensures w.index[k].id == k
      ensures w.index[k].parent.Some? ==> w.index[k].parent.value in w.index
      ensures forall i :: 0 <= i < |w.index[k].children| ==> w.index[k].children[i] in w.index
    {
      if k != id {
        WireOldNode(s, id, parentId, value, isDeleted, childIds, k);
        forall i | 0 <= i < |w.index[k].children| ensures w.index[k].children[i] in w.index {
          if i < |s.index[k].children| {
            assert w.index[k].children[i] == s.index[k].children[i];
          }
        }
      }
    }
  }

  /** A rank for the wired arena: the new node ranks just above the children
      it adopts; the resolved parent and its ancestors are lifted above it. */
  ghost function ShiftedRank(s: State, id: Id, parentId: Option<Id>, value: string, isDeleted: bool, childIds: seq<Id>): map<Id, nat>
    requires ValidState(s) && id !in s.index
  {
    var w := Wire(s, id, parentId, value, isDeleted, childIds);
    var rank := TheRank(s.index);
    var m := MaxRank(rank, Adopted(s, id, childIds));
    map k | k in w.index ::
      if k == id then m + 1
      else if HasParent(s.index, parentId) && parentId.value in Subtree(s.index, k) then rank[k] + m + 2
      else rank[k]
  }

  lemma ShiftedRankEdge(s: State, id: Id, parentId: Option<Id>, value: string, isDeleted: bool, childIds: seq<Id>,
                        k: Id, i: nat)
    requires ValidState(s) && id !in s.index && NoCycle(s, id, parentId, childIds)
    requires k in Wire(s, id, parentId, value, isDeleted, childIds).index
    requires i < |Wire(s, id, parentId, value, isDeleted, childIds).index[k].children|
    ensures var w := Wire(s, id, parentId, value, isDeleted, childIds);
            var rank' := ShiftedRank(s, id, parentId, value, isDeleted, childIds);
            w.index[k].children[i] in rank' && rank'[w.index[k].children[i]] < rank'[k]
  {
    var w := Wire(s, id, parentId, value, isDeleted, childIds);
    var rank := TheRank(s.index);
    var a := Adopted(s, id, childIds);
    var m := MaxRank(rank, a);
    var hp := HasParent(s.index, parentId);
    var rank' := ShiftedRank(s, id, parentId, value, isDeleted, childIds);
    var x := w.index[k].children[i];
    if k == id {
      WireNewNode(s, id, parentId, value, isDeleted, childIds);
      assert x in a && x in s.index && x != id;
      assert !(hp && parentId.value in Subtree(s.index, x));
      assert rank'[x] == rank[x] <= m;
      assert rank'[k] == m + 1;
    } else {
      WireOldNode(s, id, parentId, value, isDeleted, childIds, k);
      if i < |s.index[k].children| {
        assert x == s.index[k].children[i];
        assert x != id && rank[x] < rank[k];
        if hp && parentId.value in Subtree(s.index, x) {
          ChildSubtreeWithin(s.index, k, i, parentId.value);
          assert rank'[k] == rank[k] + m + 2;
          assert rank'[x] == rank[x] + m + 2;
        } else {
          assert rank'[x] == rank[x];
          assert rank'[k] >= rank[k];
        }
      } else {
        assert hp && k == parentId.value && x == id;
        assert Subtree(s.index, k)[0] == k;
        assert rank'[k] == rank[k] + m + 2;
        assert rank'[x] == m + 1;
      }
    }
  }

  /** Lines 137-158 keep the arena acyclic when NoCycle holds. */
  lemma WireAcyclic(s: State, id: Id, parentId: Option<Id>, value: string, isDeleted: bool, childIds: seq<Id>)
    requires ValidState(s) && id !in s.index && NoCycle(s, id, parentId, childIds)
    ensures Acyclic(Wire(s, id, parentId, value, isDeleted, childIds).index)
  {
    var w := Wire(s, id, parentId, value, isDeleted, childIds);
    var rank' := ShiftedRank(s, id, parentId, value, isDeleted, childIds);
    forall k, i | k in w.index && 0 <= i < |w.index[k].children|
      ensures w.index[k].children[i] in rank' && rank'[w.index[k].children[i]] < rank'[k]
    {
      ShiftedRankEdge(s, id, parentId, value, isDeleted, childIds, k, i);
    }
    assert RankedBy(w.index, rank');
  }

  /** The roots after lines 137-158 are indexed and listed once each. */
  lemma WireRootsValid(s: State, id: Id, parentId: Option<Id>, value: string, isDeleted: bool, childIds: seq<Id>)
    requires ValidState(s) && id !in s.index
    ensures var w := Wire(s, id, parentId, value, isDeleted, childIds);
            Distinct(w.roots) && forall i :: 0 <= i < |w.roots| ==> w.roots[i] in w.index
  {
    var a := Adopted(s, id, childIds);
    WireRoots(s, id, parentId, value, isDeleted, childIds);
    FilterOutDistinct(s.roots, a);
    var base := FilterOut(s.roots, a);
    if !HasParent(s.index, parentId) {
      assert Distinct(base + [id]) by {
        forall i, j | 0 <= i < j < |base + [id]| ensures (base + [id])[i] != (base + [id])[j] {
          assert (base + [id])[i] == base[i];
        }
      }
    } else {
      assert base + [] == base;
    }
  }

  /** Lines 137-158 keep the arena valid when NoCycle holds. */
  lemma WirePreservesValid(s: State, id: Id, parentId: Option<Id>, value: string, isDeleted: bool, childIds: seq<Id>)
    requires ValidState(s) && id !in s.index && NoCycle(s, id, parentId, childIds)
    ensures ValidState(Wire(s, id, parentId, value, isDeleted, childIds))
  {
    WireClosed(s, id, parentId, value, isDeleted, childIds);
    WireAcyclic(s, id, parentId, value, isDeleted, childIds);
    WireRootsValid(s, id, parentId, value, isDeleted, childIds);
  }

  /** Every rank of the wired arena also ranks the arena before the call,
      whose links all survive the wiring. */
  lemma WireKeepsOldLinks(s: State, id: Id, parentId: Option<Id>, value: string, isDeleted: bool, childIds: seq<Id>,
                          rank: map<Id, nat>)
    requires id !in s.index
    requires RankedBy(Wire(s, id, parentId, value, isDeleted, childIds).index, rank)
    ensures RankedBy(s.index, rank)
  {
    var w := Wire(s, id, parentId, value, isDeleted, childIds);
    forall k, i | k in s.index && 0 <= i < |s.index[k].children|
      ensures s.index[k].children[i] in rank && rank[s.index[k].children[i]] < rank[k]
    {
      WireOldNode(s, id, parentId, value, isDeleted, childIds, k);
      assert w.index[k].children[i] == s.index[k].children[i];
    }
  }

  /** The two links the wiring adds around an adopted child c: parent -> new node -> c. */
  lemma WireNewLinks(s: State, id: Id, parentId: Option<Id>, value: string, isDeleted: bool, childIds: seq<Id>,
                     rank: map<Id, nat>, c: Id)
    requires id !in s.index && HasParent(s.index, parentId)
    requires c in childIds && c in s.index
    requires RankedBy(Wire(s, id, parentId, value, isDeleted, childIds).index, rank)
    ensures c in rank && id in rank && parentId.value in rank
    ensures rank[c] < rank[id] < rank[parentId.value]
  {
    var w := Wire(s, id, parentId, value, isDeleted, childIds);
    var p := parentId.value;
    WireNewNode(s, id, parentId, value, isDeleted, childIds);
    WireOldNode(s, id, parentId, value, isDeleted, childIds, p);
    var a := Adopted(s, id, childIds);
    assert c in a;
    var j :| 0 <= j < |a| && a[j] == c;
    assert w.index[id].children[j] == c;
    assert w.index[p].children[|w.index[p].children| - 1] == id;
  }

  /** Adopting the resolved parent or one of its ancestors closes a cycle
      (parent -> new node -> child -> ... -> parent), so that GetForest from
      any node on it does not terminate. */
  lemma AdoptingAncestorMakesCycle(s: State, id: Id, parentId: Option<Id>, value: string, isDeleted: bool, childIds: seq<Id>)
    requires ValidState(s) && id !in s.index && !NoCycle(s, id, parentId, childIds)
    ensures !Acyclic(Wire(s, id, parentId, value, isDeleted, childIds).index)
  {
    var w := Wire(s, id, parentId, value, isDeleted, childIds);
    var p := parentId.value;
    var c :| c in childIds && c in s.index && p in Subtree(s.index, c);
    if Acyclic(w.index) {
      var rank := TheRank(w.index);
      WireKeepsOldLinks(s, id, parentId, value, isDeleted, childIds, rank);
      SubtreeIsWalk(s.index, rank, c);
      WireNewLinks(s, id, parentId, value, isDeleted, childIds, rank, c);
      assert false;
    }
  }
}
