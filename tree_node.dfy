/** The node record of ElementsTree (ElementsTree/TreeNode.cs).

    A tree keeps its nodes in an arena keyed by identifier, so a node refers
    to its parent and to its children by identifier rather than by reference.
    Object identity of a node is its identifier: the arena holds exactly one
    record per identifier. */
module TreeNodes {

  /** A System.Guid: an opaque 128-bit identifier. */
  newtype Guid = x: int | 0 <= x < 0x1_0000_0000_0000_0000_0000_0000_0000_0000

  type Id = Guid

  datatype Option<+T> = None | Some(value: T)

  /** One node: its identifier, its value, its tombstone flag, a
      back-reference to its parent (None for a root) and its ordered children. */
  datatype TreeNode = TreeNode(
    id: Id,
    value: string,
    isDeleted: bool,
    parent: Option<Id>,
    children: seq<Id>)

  /** No identifier occurs twice. */
  predicate Distinct(s: seq<Id>) {
    forall i, j :: 0 <= i < j < |s| ==> s[i] != s[j]
  }

  /** The constructor TreeNode(id, value, isDeleted). */
  function NewNode(id: Id, value: string, isDeleted: bool): (n: TreeNode)
    ensures n.id == id && n.value == value && n.isDeleted == isDeleted
    ensures n.parent == None && n.children == []
  {
    TreeNode(id, value, isDeleted, None, [])
  }

  /** The constructor TreeNode(value). The source draws the identifier from
      Guid.NewGuid(); here the caller supplies it. */
  function NewValueNode(freshId: Id, value: string): (n: TreeNode)
    ensures n.id == freshId && n.value == value && !n.isDeleted
    ensures n.parent == None && n.children == []
  {
    NewNode(freshId, value, false)
  }

  /** AddChild, performed on the arena: the child's parent becomes parentId
      and the child is appended to the parent's children. Nothing else
      changes; in particular a previous parent keeps the child in its list. */
  function AddChild(nodes: map<Id, TreeNode>, parentId: Id, childId: Id): (r: map<Id, TreeNode>)
    requires parentId in nodes && childId in nodes
    ensures r.Keys == nodes.Keys
    ensures r[childId].parent == Some(parentId)
    ensures r[parentId].children == nodes[parentId].children + [childId]
    ensures childId != parentId ==>
              && r[childId] == nodes[childId].(parent := Some(parentId))
              && r[parentId] == nodes[parentId].(children := nodes[parentId].children + [childId])
    ensures forall k :: k in nodes && k != parentId && k != childId ==> r[k] == nodes[k]
  {
    var linked := nodes[childId := nodes[childId].(parent := Some(parentId))];
    linked[parentId := linked[parentId].(children := linked[parentId].children + [childId])]
  }
}
