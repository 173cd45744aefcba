/**
 * The tree object and node creation (utils/btree.c, `BTree`,
 * `create_node`, `create_btree`).
 *
 * A node is a `BTreeSpec.Tree` value: its leaf flag, the live slots of its
 * key array and the live slots of its child array. The tree object is the
 * one thing the routines update in place: its root and its `node_count`.
 */
module Trees {
  import opened KeyOrder
  import opened KeySeq
  import opened BTreeSpec

  /** `create_node`: a node with the given leaf flag, no keys and no children. */
  function CreateNode(leaf: bool): (n: Tree)
    ensures n.isLeaf == leaf && |n.keys| == 0 && Listing(n) == [] && NodeCount(n) == 1
    ensures leaf ==> IsBTree(n) && Height(n) == 0
  {
    Tree(leaf, [], [])
  }

  class BTree {
    /** The root node. */
    var root: Tree
    /** `node_count`: the number of nodes the tree has created and not released. */
    var nodeCount: int

    /**
     * The root holds a B-tree and the counter agrees with the number of
     * nodes in it.
     */
    ghost predicate Valid()
      reads this
    {
      IsBTree(root) && nodeCount == NodeCount(root)
    }

    /** The keys of the tree in order: what an in-order traversal lists. */
    function Keys(): seq<Key>
      reads this
    {
      Listing(root)
    }

    /** `create_btree`: a single empty leaf, one node counted. */
    constructor ()
      ensures Valid() && Keys() == [] && Height(root) == 0
      ensures root.isLeaf && root.keys == [] && nodeCount == 1
    {
      root := CreateNode(true);
      nodeCount := 1;
    }
  }
}
