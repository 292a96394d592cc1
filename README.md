# ElementsTree in Dafny

A model of the in-memory multi-root tree of ElementsTree (`ElementsTree/ElementsTree`),
with proofs about it. A `Tree` holds two pieces of state:

- an identifier index (`idToNodes`) of nodes; nodes are never removed from it, only tombstoned;
- an ordered list of root nodes (`rootNodes`).

Its operations cover the following:

- inserting a node: attach it to its parent or to the roots, adopt existing children, cascade the tombstone;
- soft deletion of a pre-order subtree;
- value changes, limited to 1 to 10 characters;
- pre-order flattening, lookup and the root list;
- merging a batch of node records from another tree;
- building the demonstration tree.

The model is an arena. Each node is a `TreeNode` record that names its parent and its children by
identifier. The class `Trees.Tree` keeps `idToNodes: map<Id, TreeNode>` and `rootNodes: seq<Id>` as
fields, and its methods update them in place with the source's loops. Each method is proved against
a function on the abstract `State`. The lemmas about those functions state what the source promises.

| module (file) | contents |
|---|---|
| `TreeNodes` (tree_node.dfy) | `Guid`, the `TreeNode` record, its two constructors, `AddChild` on the arena |
| `IdLists` (id_lists.dfy) | `List.Remove` on the root list, filtering |
| `Traversal` (traversal.dfy) | closedness and acyclicity of the arena (a rank that drops along every link); pre-order flattening `Subtree` / `Forest` |
| `TreeState` (tree_state.dfy) | `State`, validity, the proper-forest predicate `WellFormed`, soft delete `RemoveSpec`, value change |
| `Wiring` (wiring.dfy) | the structural part of `AddNode`: attach, then adopt; acyclicity under `NoCycle` |
| `Insertion` (insertion.dfy) | `AddNodeSpec` and its properties, including the hazards of adoption |
| `Merge` (merge.dfy) | `UpdateTree` as `MergeSpec`: validation, then records applied in order |
| `DefaultTree` (default_tree.dfy) | the layout of `GetDefaultTree`, and the state after each of its calls |
| `Trees` (tree.dfy) | the `Tree` class |

Validity (`ValidState`) is what every operation needs:

- every record sits under its own identifier;
- every link points into the index;
- some rank drops along every parent-to-child link, so flattening terminates;
- the roots are indexed and listed once each.

`WellFormed` adds the proper-forest conditions, node by node (`ProperAt`):

- a node is a root exactly when it has no parent;
- every child points back to its parent;
- every parent lists its child;
- no node lists a child twice.

The source does not keep `WellFormed` in general. The model proves when `AddNode` keeps it and shows
two ways in which `AddNode` breaks it.

Re-parenting in `AddNode` (`ElementsTree/ElementsTree/Tree.cs:151-155`) removes an adopted node
only from the root list. A non-root child therefore stays listed by its previous parent, while its
parent link points at the new node. `Insertion.AdoptingNonRootBreaksWellFormed` states this.

The tombstone invariant `TombstonesClosed` says that every node in the subtree of a deleted node is
deleted. `RemoveNode` marks the whole subtree. `AddNode` cascades whenever the new node or its parent
is deleted. `ChangeNodeValue` and `UpdateTree` never clear a flag. The model proves that every state
function keeps the invariant, and that the constructor and `GetDefaultTree` establish it.
`TombstonesInherited` states the same invariant link by link: every child of a deleted node is deleted.

## Model

| member | source | states |
|---|---|---|
| TreeNodes.NewNode | ElementsTree/ElementsTree/TreeNode.cs:32-40 | the node has exactly the given identifier, value and tombstone flag, no parent and no children |
| TreeNodes.NewValueNode | ElementsTree/ElementsTree/TreeNode.cs:16-24 | the node has the given value, is not deleted, and has no parent and no children |
| TreeNodes.AddChild | ElementsTree/ElementsTree/TreeNode.cs:46-50 | the child's parent becomes the parent; the child is appended after the parent's earlier children, which keep their order; every other record is unchanged, so a previous parent still lists the child |
| IdLists.RemoveFirst | ElementsTree/ElementsTree/Tree.cs:153-154 | `List.Remove` on the roots: an absent identifier changes nothing; otherwise exactly its first occurrence (`FirstIndex`) is cut out and the rest keeps its order |
| IdLists.RemoveFirstDistinct | ElementsTree/ElementsTree/Tree.cs:153-154 | on a root list without repetitions, removing the first occurrence removes the identifier altogether |
| Traversal.Subtree | ElementsTree/ElementsTree/Tree.cs:284-296 | the flattening from a node starts with that node and stays within the index |
| Traversal.Forest | ElementsTree/ElementsTree/Tree.cs:96-100 | `GetForest(null)`: the flattenings of the listed roots concatenated in order; every element is an indexed node |
| Traversal.ForestMember | ElementsTree/ElementsTree/Tree.cs:96-100 | every node of a forest lies in the flattening of one of its roots |
| Traversal.SubtreeTransitive | ElementsTree/ElementsTree/Tree.cs:284-296 | the flattening of a node contains the flattening of every node in it |
| Traversal.SubtreeUnfold | ElementsTree/ElementsTree/Tree.cs:291-293 | the flattening from a node is the node, then the flattenings of its children in child order |
| Traversal.SubtreeSameShape | ElementsTree/ElementsTree/Tree.cs:284-296 | changing only values or tombstones leaves the flattening from every node as it was |
| Traversal.AncestorNotInSubtree | ElementsTree/ElementsTree/Tree.cs:284-296 | a proper ancestor of a node never occurs in its flattening |
| TreeState.ValidValue | ElementsTree/ElementsTree/Tree.cs:179 | a value is accepted exactly when it has 1 to 10 characters, the rule `ChangeNodeValue` also applies at line 253 |
| TreeState.MarkDeleted | ElementsTree/ElementsTree/Tree.cs:273-274 | the tombstone loop over the listed nodes, in order; the index keeps its identifiers |
| TreeState.RemoveSpec | ElementsTree/ElementsTree/Tree.cs:267-277 | the private `RemoveNode` on an indexed node: the tombstone loop over `GetForest(node)`; the state stays valid |
| TreeState.MarkDeletedEffect | ElementsTree/ElementsTree/Tree.cs:273-274 | the tombstone loop deletes exactly the listed nodes and changes nothing else about any node |
| TreeState.RemoveMarksExactlySubtree | ElementsTree/ElementsTree/Tree.cs:267-277 | removing a node deletes exactly the nodes of `GetForest(node)`; values, links, the index and the roots are untouched |
| TreeState.RemoveIdempotent | ElementsTree/ElementsTree/Tree.cs:267-277 | removing twice is the same as removing once |
| TreeState.RemoveKeepsAncestors | ElementsTree/ElementsTree/Tree.cs:267-277 | the ancestors of the removed node keep their records, tombstone flag included |
| TreeState.RemoveKeepsWellFormed | ElementsTree/ElementsTree/Tree.cs:267-277 | removal keeps a proper forest proper |
| TreeState.TombstonesLocal | ElementsTree/ElementsTree/Tree.cs:267-277 | every tombstone covers its subtree exactly when every child of a deleted node is deleted |
| TreeState.RemoveKeepsTombstones | ElementsTree/ElementsTree/Tree.cs:267-277 | removal keeps every tombstone covering its subtree |
| TreeState.SetValue | ElementsTree/ElementsTree/Tree.cs:258 | the assignment `node.Value = v`: roots and identifiers stay, and the node holds the new value |
| TreeState.SetValueKeepsTombstones | ElementsTree/ElementsTree/Tree.cs:258 | a value change keeps the state valid and every tombstone covering its subtree |
| TreeState.ChangeValueSpec | ElementsTree/ElementsTree/Tree.cs:221-228 | an absent identifier fails with `NodeAbsent`; then a value that is not 1 to 10 characters fails with `ValueLength`; it succeeds exactly otherwise, and then only that node's value changes |
| TreeState.SetValueKeepsShape | ElementsTree/ElementsTree/Tree.cs:258 | setting a value keeps the links, validity and proper-forest shape |
| Wiring.HasParent | ElementsTree/ElementsTree/Tree.cs:141 | the parent lookup: a parent identifier is given and names an indexed node |
| Wiring.Attach | ElementsTree/ElementsTree/Tree.cs:137-144 | the new record joins the index, which gains exactly its identifier |
| Wiring.AttachShape | ElementsTree/ElementsTree/Tree.cs:137-144 | the new record has the given value and flag, the resolving parent and no children; the parent gains it as last child, or else it is appended to the roots; no other record changes |
| Wiring.AdoptOne | ElementsTree/ElementsTree/Tree.cs:151-156 | one pass of the adoption loop; it keeps the index's identifiers |
| Wiring.Adopt | ElementsTree/ElementsTree/Tree.cs:149-157 | the adoption loop over the child identifiers, in order; it keeps the index's identifiers |
| Wiring.Wire | ElementsTree/ElementsTree/Tree.cs:137-158 | attach, then adopt; the index gains exactly the new identifier |
| Wiring.Resolved | ElementsTree/ElementsTree/Tree.cs:149-156 | a child identifier is adopted exactly when it resolves to an indexed node other than the new one; there are no more adopted entries than child identifiers |
| Wiring.Adopted | ElementsTree/ElementsTree/Tree.cs:149-151 | the child identifiers the call adopts: exactly those that name an indexed node other than the new one, in order |
| Wiring.WireNewNode | ElementsTree/ElementsTree/Tree.cs:137-158 | the new node's parent is the resolving parent (or none) and its children are the resolving child identifiers |
| Wiring.WireOldNode | ElementsTree/ElementsTree/Tree.cs:141-156 | an existing node changes only its parent (when it is adopted) and its children (when it is the parent, which gains the new node last) |
| Wiring.WireRoots | ElementsTree/ElementsTree/Tree.cs:141-154 | adopted children leave the root list; the new node is appended when its parent does not resolve |
| Wiring.WireAcyclic | ElementsTree/ElementsTree/Tree.cs:137-158 | when `NoCycle` holds, the wired arena still has a rank, so flattening terminates |
| Wiring.WirePreservesValid | ElementsTree/ElementsTree/Tree.cs:137-158 | when `NoCycle` holds, attaching and adopting keep the state valid |
| Wiring.AdoptingAncestorMakesCycle | ElementsTree/ElementsTree/Tree.cs:149-156 | adopting the resolving parent or one of its ancestors leaves no rank: a cycle, on which `GetForestForNode` would not terminate |
| Insertion.Cascades | ElementsTree/ElementsTree/Tree.cs:161 | the cascade condition on the wired state: the new node's parent is deleted, or the new node is |
| Insertion.DeletesSubtree | ElementsTree/ElementsTree/Tree.cs:161 | the same condition on the call's arguments: the new node is deleted, or its parent resolves to a deleted node |
| Insertion.CascadeCondition | ElementsTree/ElementsTree/Tree.cs:161 | the two forms of the cascade condition agree |
| Insertion.AddNodeSpec | ElementsTree/ElementsTree/Tree.cs:132-165 | the call fails with `DuplicateId(id)` exactly when the identifier is already indexed; otherwise the state stays valid and the index gains exactly that identifier |
| Insertion.AddNodeNewNode | ElementsTree/ElementsTree/Tree.cs:137-164 | the new record has the given identifier and value; its parent is the resolving parent; its children are the adopted children; it is deleted exactly when it or its parent was |
| Insertion.AddNodeOldNode | ElementsTree/ElementsTree/Tree.cs:141-162 | an existing node's parent, children and tombstone change only through adoption, parenting and the cascade |
| Insertion.AddNodeRoots | ElementsTree/ElementsTree/Tree.cs:141-154 | the roots afterwards are the old roots without the adopted children, plus the new node at the end when its parent does not resolve |
| Insertion.AddNodeInserts | ElementsTree/ElementsTree/Tree.cs:137-144 | the identifier is indexed with the given value; it becomes the resolving parent's last child and not a root, or else the last root with no parent (an unresolved parent identifier is no error) |
| Insertion.AddNodeAdopts | ElementsTree/ElementsTree/Tree.cs:147-158 | each resolving child identifier leaves the roots, is appended in order to the new node's children and points at it; all other parent links and root memberships stay; only the parent's children list gains anything; no value changes |
| Insertion.AddNodeCascade | ElementsTree/ElementsTree/Tree.cs:160-162 | if the new node or its parent is deleted, the new node's whole subtree is deleted afterwards, adopted children included, and nothing else; otherwise no tombstone changes and the new node is live |
| Insertion.AddNodeKeepsWellFormed | ElementsTree/ElementsTree/Tree.cs:132-165 | when no adopted identifier repeats and each resolves to a root, a proper forest stays proper |
| Insertion.AdoptingNonRootBreaksWellFormed | ElementsTree/ElementsTree/Tree.cs:151-155 | adopting a child that is not a root leaves it in its previous parent's children while it points at the new node, so the forest is no longer proper |
| Insertion.RepeatedChildBreaksWellFormed | ElementsTree/ElementsTree/Tree.cs:149-155 | a child identifier given twice is appended twice, so the forest is no longer proper |
| Insertion.AddNodeKeepsTombstones | ElementsTree/ElementsTree/Tree.cs:160-162 | a successful insertion keeps every tombstone covering its subtree: a node that joins a deleted node's subtree is deleted by the cascade |
| Merge.FirstInvalid | ElementsTree/ElementsTree/Tree.cs:177-181 | none exactly when every record's value is 1 to 10 characters; otherwise the identifier of the first record whose value is not |
| Merge.FirstInvalidAt | ElementsTree/ElementsTree/Tree.cs:177-181 | the validation loop, stopping at record i, reports the first invalid record |
| Merge.MergeSpec | ElementsTree/ElementsTree/Tree.cs:172-200 | a null list is a no-op; the merge fails with the first invalid record's identifier exactly when some value is invalid; otherwise the state stays valid |
| Merge.ApplyOne | ElementsTree/ElementsTree/Tree.cs:188-198 | one record: a known node gets the value and, for a deleted record, loses its subtree; an unknown one is inserted with `AddNode`; the state stays valid |
| Merge.ApplyAll | ElementsTree/ElementsTree/Tree.cs:183-199 | the application loop over the records, in order; the state stays valid |
| Merge.ApplyExisting | ElementsTree/ElementsTree/Tree.cs:188-194 | a record for a known node sets its value and, when the record is deleted, tombstones exactly that node's subtree; roots, links and other values stay; nothing is undeleted |
| Merge.ApplyOneEffect | ElementsTree/ElementsTree/Tree.cs:188-198 | whichever branch a record takes, its identifier ends up indexed with the record's value and deleted if the record is; other values stay; no tombstone is cleared |
| Merge.RecordIds | ElementsTree/ElementsTree/Tree.cs:183-199 | the identifiers the batch names, exactly |
| Merge.MergeKeys | ElementsTree/ElementsTree/Tree.cs:183-199 | after the merge the index holds the known nodes and every record's node, and nothing else |
| Merge.MergeKeepsOthers | ElementsTree/ElementsTree/Tree.cs:183-199 | a node that no record names keeps its value, and the merge never clears a tombstone |
| Merge.MergeLastWins | ElementsTree/ElementsTree/Tree.cs:183-199 | the last record naming a node decides its value |
| Merge.MergeDeletes | ElementsTree/ElementsTree/Tree.cs:183-199 | every deleted record leaves its node deleted |
| Merge.ApplyOneKeepsTombstones | ElementsTree/ElementsTree/Tree.cs:188-198 | a record, whichever branch it takes, keeps every tombstone covering its subtree |
| Merge.ApplyAllKeepsTombstones | ElementsTree/ElementsTree/Tree.cs:183-199 | the application loop keeps every tombstone covering its subtree |
| Merge.MergeKeepsTombstones | ElementsTree/ElementsTree/Tree.cs:172-200 | a successful `UpdateTree` keeps every tombstone covering its subtree |
| DefaultTree.DefaultValues | ElementsTree/ElementsTree/Tree.cs:27-45 | the fifteen node values, in the order of the `AddNode` calls |
| DefaultTree.DefaultParents | ElementsTree/ElementsTree/Tree.cs:49-68 | for each call after the first, the position of the earlier call whose node is its parent |
| DefaultTree.BuiltUpTo | ElementsTree/ElementsTree/Tree.cs:47-70 | the state after the first n calls: a proper forest holding exactly their nodes, rooted at the first, each with its value, parent and children in call order, none deleted |
| DefaultTree.ParentArg | ElementsTree/ElementsTree/Tree.cs:49-68 | the first call has no parent; every later call names the node of an earlier call |
| DefaultTree.NoChildrenYet | ElementsTree/ElementsTree/Tree.cs:49-68 | a node has no children before any later node is added |
| DefaultTree.CallStep | ElementsTree/ElementsTree/Tree.cs:49-68 | each call of the layout is allowed (a new identifier, no cycle) and extends the tree built so far by one node, with its value and parent, appended to its parent's children, none deleted, still a proper forest with one root |
| DefaultTree.BuiltUpToTombstones | ElementsTree/ElementsTree/Tree.cs:25-71 | the tree built so far has no deleted node, so every tombstone trivially covers its subtree |
| Trees.Tree.constructor | ElementsTree/ElementsTree/Tree.cs:15-19 | no roots, no nodes; a valid, proper forest in which every tombstone covers its subtree |
| Trees.Tree.GetDefaultTree | ElementsTree/ElementsTree/Tree.cs:25-71 | a fresh tree holding exactly the fifteen nodes, one root, each with the source's value, parent and children order, none deleted |
| Trees.Tree.GetTreeRoots | ElementsTree/ElementsTree/Tree.cs:77-85 | a copy of the roots, in order |
| Trees.Tree.GetForest | ElementsTree/ElementsTree/Tree.cs:92-107 | from a node: its pre-order flattening; from null: the flattenings of the roots, concatenated in root order, which is empty when there are no roots |
| Trees.Tree.GetNode | ElementsTree/ElementsTree/Tree.cs:114-119 | the indexed record, or null exactly when the identifier is not indexed |
| Trees.Tree.IsHaveNode | ElementsTree/ElementsTree/Tree.cs:207-212 | true exactly when the identifier is indexed, that is, when `GetNode` is not null |
| Trees.Tree.AddNode | ElementsTree/ElementsTree/Tree.cs:132-165 | a duplicate identifier fails with `DuplicateId` and changes nothing; otherwise the new state is `AddNodeSpec`'s |
| Trees.Tree.UpdateTree | ElementsTree/ElementsTree/Tree.cs:172-200 | a null list changes nothing; an invalid value fails before any change; otherwise the new state is the records applied in order (`MergeSpec`) |
| Trees.Tree.ChangeNodeValue | ElementsTree/ElementsTree/Tree.cs:221-228 | fails with `ChangeValueSpec`'s error and changes nothing, or returns true with only that node's value changed; keeps every tombstone covering its subtree |
| Trees.Tree.RemoveNode | ElementsTree/ElementsTree/Tree.cs:235-242 | false and no change for an unknown identifier; otherwise true and exactly the node's subtree is tombstoned (`RemoveSpec`); keeps every tombstone covering its subtree |
| Trees.Tree.ChangeTreeNodeValue | ElementsTree/ElementsTree/Tree.cs:251-260 | the value is checked first (`ValueLength`, no change); then null gives false and no change; otherwise true and the value is set |
| Trees.Tree.RemoveTreeNode | ElementsTree/ElementsTree/Tree.cs:267-277 | null gives false and no change; otherwise true, and each node of `GetForest(node)` is tombstoned, giving `RemoveSpec` |
| Trees.Tree.GetForestForNode | ElementsTree/ElementsTree/Tree.cs:284-296 | nothing for null; otherwise the node's pre-order flattening |

`TreeException` (`ElementsTree/ElementsTree/TreeException.cs:8-11`) is modelled as the `TreeError`
outcome. `AddNode` and `UpdateTree` return `Pass` or `Fail(error)`. `ChangeNodeValue` returns
`Success(true)` or `Failure(error)`. Only the private overload `ChangeTreeNodeValue` also returns
`Success(false)`, for a null node.

## Left out

- Object references and aliasing: nodes are records in an arena keyed by identifier. A parent link
  or a child entry is an identifier, not an object reference. `Childrens`, a live read-only view of the child
  list, is the record's `children` field itself, which every `AddChild` updates.
- `TreeNode.AddChild` is a function on the arena map rather than a method that mutates two objects.
  It changes the same two records in the same way.
- `Guid.NewGuid()`: callers supply identifiers. `TreeNodes.NewValueNode` and
  `Trees.Tree.GetDefaultTree` take them as parameters, and `GetDefaultTree` requires fifteen
  distinct ones.
- The localized exception messages: only the kind of error and the identifier it names are kept.
- Null records in `UpdateTree`, null strings and a null `childIds`: records and strings are
  values, a missing `childIds` is the empty list, and `UpdateTree`'s `if (newNode == null)
  continue;` cannot fire.
- The value-length check counts characters of `seq<char>`. The source counts UTF-16 code units.
- Trees.Tree.AddNode: requires `NoCycle`, that no resolving child is the resolving parent or one of
  its ancestors. Without it the source builds a cycle, on which `GetForestForNode` does not
  terminate, as `Wiring.AdoptingAncestorMakesCycle` shows. The model does not describe the state
  after such a call.
- Trees.Tree.UpdateTree: requires, through `MergeAllowed`, that each record for an unknown node
  meets `NoCycle` when its turn comes, for the same reason.
- Trees.Tree.GetForest: the node argument must be null or a node of this tree. The source also
  accepts a node of another tree and flattens that one.
- `AddNode` registers the new node in the index last (`ElementsTree/ElementsTree/Tree.cs:164`); the
  model enters it first and excludes its identifier from every lookup of the call. Since a
  duplicate identifier has already failed by then, the lookups see the same nodes.
- Trees.Tree.AddNode, Trees.Tree.UpdateTree: their contracts do not repeat the tombstone invariant.
  They state their new state as `AddNodeSpec` and `MergeSpec`, about which
  `Insertion.AddNodeKeepsTombstones` and `Merge.MergeKeepsTombstones` prove it.
  `Trees.Tree.GetDefaultTree` states its final state as `BuiltUpTo`, about which
  `DefaultTree.BuiltUpToTombstones` proves it.
- Trees.Tree.GetDefaultTree: the source's fifteen straight-line `AddNode` calls are written as one
  loop over the table `DefaultValues` / `DefaultParents` of their arguments.
- The ASP.NET front end (`ElementsTree.Web`: controller, startup, converters, view models) is not
  part of this model.
