/**
 * Insertion (utils/btree.c, `split_child`, `insert_non_full`,
 * `insert_key`) with the loops of the C routines: the element-by-element
 * copies and shifts in the key and child arrays and the scan for the
 * slot. Each method is proved to compute the function of the same name in
 * InsertSpec, whose properties are proved there, and to count the nodes
 * it creates in the tree's `node_count`.
 */
module Insertion {
  import opened KeyOrder
  import opened KeySeq
  import opened BTreeSpec
  import opened Trees
  import opened Slots
  import I = InsertSpec

  /**
   * The shifting loop of `split_child`: from the back, each key from slot
   * `index` on and each child from slot `index + 1` on moves one slot up,
   * and `key` and `right` fill the slots that opened. The arrays of the C
   * node have the spare slot at the end that the buffers here start with.
   */
  method OpenGap(keys: seq<Key>, children: seq<Tree>, index: nat, key: Key, right: Tree)
    returns (ks: seq<Key>, cs: seq<Tree>)
    requires index <= |keys| && |children| == |keys| + 1
    ensures ks == keys[..index] + [key] + keys[index..]
    ensures cs == children[..index + 1] + [right] + children[index + 1..]
  {
    var n := |keys|;
    ks, cs := keys + [key], children + [right];
    var i := n;
    while i > index
      invariant index <= i <= n
      invariant |ks| == n + 1 && |cs| == n + 2
      invariant ks[..i] == keys[..i] && ks[i + 1..] == keys[i..]
      invariant cs[..i + 1] == children[..i + 1] && cs[i + 2..] == children[i + 1..]
    {
      cs := cs[i + 1 := cs[i]];
      ks := ks[i := ks[i - 1]];
      i := i - 1;
    }
    Fill(children, cs, index + 1, right);
    Fill(keys, ks, index, key);
    cs := cs[index + 1 := right];
    ks := ks[index := key];
  }

  /**
   * The copying loops of `split_child`: a new node with the full node's
   * leaf flag takes its keys from slot `t` on and, when it is internal,
   * its children from slot `t` on, one by one.
   */
  method MoveUpperHalf(child: Tree) returns (newChild: Tree)
    requires Wf(child) && |child.keys| == MAX_KEYS
    ensures newChild == I.UpperHalf(child)
  {
    newChild := CreateNode(child.isLeaf);
    var i := 0;
    while i < ORDER - 1
      invariant 0 <= i <= ORDER - 1
      invariant newChild == Tree(child.isLeaf, child.keys[ORDER..ORDER + i], [])
    {
      newChild := newChild.(keys := newChild.keys + [child.keys[i + ORDER]]);
      i := i + 1;
    }
    if !child.isLeaf {
      i := 0;
      while i < ORDER
        invariant 0 <= i <= ORDER
        invariant newChild == Tree(false, child.keys[ORDER..], child.children[ORDER..ORDER + i])
      {
        newChild := newChild.(children := newChild.children + [child.children[i + ORDER]]);
        i := i + 1;
      }
    }
  }

  /**
   * `split_child`: the full child at `index` hands its upper `t-1` keys
   * (and `t` children) to a new node, which the parent takes in after it
   * together with the child's median key; one node more is counted.
   */
  method SplitChild(tree: BTree, parent: Tree, index: nat) returns (p: Tree)
    requires Wf(parent) && !parent.isLeaf && |parent.keys| < MAX_KEYS
    requires index < |parent.children| && |parent.children[index].keys| == MAX_KEYS
    modifies tree`nodeCount
    ensures p == I.SplitChild(parent, index)
    ensures tree.nodeCount == old(tree.nodeCount) + 1
  {
    var child := parent.children[index];
    assert Wf(child);
    var newChild := MoveUpperHalf(child);
    tree.nodeCount := tree.nodeCount + 1;
    // The median stays in slot `t-1` of the child, now past its live keys.
    var median := child.keys[ORDER - 1];
    child := I.LowerHalf(child);

    var keys, children := OpenGap(parent.keys, parent.children, index, median, newChild);
    children := children[index := child];
    p := parent.(keys := keys, children := children);
  }

  /**
   * Where the scans of `insert_non_full` stop: the one slot with every key
   * from it on sorting strictly after `key` and the key before it not.
   */
  lemma SlotFound(keys: seq<Key>, key: Key, i: nat)
    requires i <= |keys|
    requires forall j :: i <= j < |keys| ==> Strcmp(key, keys[j]) < 0
    requires i > 0 ==> Strcmp(key, keys[i - 1]) >= 0
    ensures i == I.InsertIndex(keys, key)
  {
  }

  /**
   * The leaf case of `insert_non_full`: from the back, each key that sorts
   * after `key` moves one slot up, into the spare slot at the end to begin
   * with, and `key` fills the slot that opened.
   */
  method ShiftInsert(keys: seq<Key>, key: Key) returns (r: seq<Key>)
    ensures var i := I.InsertIndex(keys, key); r == keys[..i] + [key] + keys[i..]
  {
    var i := |keys| - 1;
    r := keys + [key];
    while i >= 0 && Strcmp(key, r[i]) < 0
      invariant -1 <= i < |keys| && |r| == |keys| + 1
      invariant r[..i + 1] == keys[..i + 1] && r[i + 2..] == keys[i + 1..]
      invariant forall j :: i < j < |keys| ==> Strcmp(key, keys[j]) < 0
    {
      r := r[i + 1 := r[i]];
      i := i - 1;
    }
    Fill(keys, r, i + 1, key);
    r := r[i + 1 := key];
    SlotFound(keys, key, i + 1);
  }

  /**
   * The internal case's scan in `insert_non_full`: back from the last key
   * while `key` sorts strictly before it; the child to descend into is the
   * one after the key the scan stops at.
   */
  method FindChild(keys: seq<Key>, key: Key) returns (i: nat)
    ensures i == I.InsertIndex(keys, key)
  {
    var j := |keys| - 1;
    while j >= 0 && Strcmp(key, keys[j]) < 0
      invariant -1 <= j < |keys|
      invariant forall k :: j < k < |keys| ==> Strcmp(key, keys[k]) < 0
    {
      j := j - 1;
    }
    i := j + 1;
    SlotFound(keys, key, i);
  }

  /**
   * `insert_non_full`: a leaf shifts its keys that sort after `key` one
   * slot up, from the back, and puts `key` in the slot that opened; an
   * internal node scans back to the same slot, splits the child there if
   * it is full (stepping right when `key` sorts after the median that came
   * up), and inserts into that child. The tree counts each node created.
   */
  method InsertNonFull(tree: BTree, node: Tree, key: Key) returns (r: Tree)
    requires Wf(node) && |node.keys| < MAX_KEYS
    modifies tree`nodeCount
    ensures tree.nodeCount == old(tree.nodeCount) + NodeCount(r) - NodeCount(node)
    ensures r == I.InsertNonFull(node, key)
    decreases Height(node), 1
  {
    if node.isLeaf {
      var keys := ShiftInsert(node.keys, key);
      r := node.(keys := keys);
    } else {
      var i := FindChild(node.keys, key);
      var n := node;
      if |n.children[i].keys| == MAX_KEYS {
        I.SplitChildValid(n, i);
        n := SplitChild(tree, n, i);
        if Strcmp(key, n.keys[i]) > 0 {
          i := i + 1;
        }
      }
      r := InsertInChild(tree, n, i, key);
    }
  }

  /** The recursive call of `insert_non_full` on the child at `i`, which has room. */
  method InsertInChild(tree: BTree, n: Tree, i: nat, key: Key) returns (r: Tree)
    requires Wf(n) && !n.isLeaf && i < |n.children| && |n.children[i].keys| < MAX_KEYS
    modifies tree`nodeCount
    ensures r == I.InsertInChild(n, i, key)
    ensures tree.nodeCount == old(tree.nodeCount) + NodeCount(r) - NodeCount(n)
    decreases Height(n), 0
  {
    assert Wf(n.children[i]) && Height(n.children[i]) < Height(n);
    var c := InsertNonFull(tree, n.children[i], key);
    ReplaceChildCount(n, i, c);
    r := n.(children := n.children[i := c]);
  }

  /**
   * `insert_key`: a full root goes under a new empty root, which splits it
   * and becomes the tree's root; then the key goes in from the root. The
   * tree stays a B-tree that lists the key in its sorted place behind any
   * equal keys, and grows by one level exactly when the root was full, the
   * new root then holding one key.
   */
  method InsertKey(tree: BTree, key: Key)
    requires tree.Valid()
    modifies tree
    ensures tree.Valid() && tree.root == I.InsertKey(old(tree.root), key)
    ensures tree.Keys() == Insert(old(tree.Keys()), key)
    ensures multiset(tree.Keys()) == multiset(old(tree.Keys())) + multiset{key}
    ensures |old(tree.root).keys| == MAX_KEYS ==>
      Height(tree.root) == Height(old(tree.root)) + 1 && |tree.root.keys| == 1 &&
      tree.nodeCount >= old(tree.nodeCount) + 2
    ensures |old(tree.root).keys| < MAX_KEYS ==>
      Height(tree.root) == Height(old(tree.root)) && tree.nodeCount >= old(tree.nodeCount)
  {
    var root := tree.root;
    I.InsertKeyValid(root, key);
    if |root.keys| == MAX_KEYS {
      var newRoot := CreateNode(false);
      newRoot := newRoot.(children := [root]);
      tree.root := newRoot;
      tree.nodeCount := tree.nodeCount + 1;
      I.NewRoot(root);
      I.SplitChildValid(newRoot, 0);
      tree.root := SplitChild(tree, tree.root, 0);
      tree.root := InsertNonFull(tree, tree.root, key);
    } else {
      tree.root := InsertNonFull(tree, root, key);
    }
  }
}
