/**
 * `Node<T>` of src/data/node.rs: a node holding an optional value and a
 * list of children.  `add_child` pushes a clone of the given node, so a
 * child is stored as the value the node had at that moment (`Tree`), not
 * as a reference that later changes to the node would reach.
 */
module Nodes {
  import opened Wrappers

  /** A cloned node: its children and its data, as values. */
  datatype Tree<T> = Tree(children: seq<Tree<T>>, data: Option<T>)

  class Node<T> {
    var children: seq<Tree<T>>
    var data: Option<T>

    /** `node.clone()`: the node's current contents as a value. */
    function Snapshot(): Tree<T>
      reads this
    {
      Tree(children, data)
    }

    /** `Node::new(data)`: the value, and no children. */
    constructor New(d: T)
      ensures data == Some(d) && children == []
    {
      data := Some(d);
      children := [];
    }

    /** `Node::from_board(board)`: the same node as `New` builds. */
    constructor FromBoard(d: T)
      ensures data == Some(d) && children == []
    {
      children := [];
      data := Some(d);
    }

    /**
     * `add_child(node)`: one more child, a copy of `node` as it was at the
     * call; the earlier children and the data stay as they were.
     */
    method AddChild(node: Node<T>)
      modifies this`children
      ensures children == old(children) + [old(node.Snapshot())]
      ensures |children| == |old(children)| + 1 && children[|children| - 1] == old(node.Snapshot())
      ensures children[..|old(children)|] == old(children) && data == old(data)
    {
      children := children + [node.Snapshot()];
    }

    /** `get_date()`: the stored value, unchanged. */
    function GetDate(): Option<T>
      reads this
    {
      data
    }
  }
}
