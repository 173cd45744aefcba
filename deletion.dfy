/**
 * Deletion (utils/btree.c, `get_predecessor` to `remove_key`) with the
 * loops of the C routines: the descents to the rightmost and leftmost
 * leaf, the shifts and copies inside the key and child arrays, and the
 * scan for the key's slot. Each method is proved to compute the function
 * of the same name in DeleteSpec, whose properties are proved there, and
 * to keep the tree's `node_count` in step with the nodes it frees.
 */
module Deletion {
  import opened KeyOrder
  import opened KeySeq
  import opened BTreeSpec
  import opened Trees
  import opened Slots
  import D = DeleteSpec

  /**
   * `get_predecessor`: down the last child until a leaf, then its last
   * key, which is the last key the subtree lists.
   */
  method GetPredecessor(node: Tree) returns (k: Key)
    requires Wf(node) && |node.keys| >= 1
    ensures k == D.Predecessor(node) && k == Last(Listing(node))
  {
    var cur := node;
    while !cur.isLeaf
      invariant Wf(cur) && |cur.keys| >= 1 && D.Predecessor(cur) == D.Predecessor(node)
      decreases Height(cur)
    {
      cur := cur.children[|cur.keys|];
    }
    k := cur.keys[|cur.keys| - 1];
    D.PredecessorLast(node);
  }

  /**
   * `get_successor`: down the first child until a leaf, then its first
   * key, which is the first key the subtree lists.
   */
  method GetSuccessor(node: Tree) returns (k: Key)
    requires Wf(node) && |node.keys| >= 1
    ensures k == D.Successor(node) && k == Listing(node)[0]
  {
    var cur := node;
    while !cur.isLeaf
      invariant Wf(cur) && |cur.keys| >= 1 && D.Successor(cur) == D.Successor(node)
      decreases Height(cur)
    {
      cur := cur.children[0];
    }
    k := cur.keys[0];
    D.SuccessorFirst(node);
  }

  /**
   * `borrow_from_prev`: the child at `idx` shifts its keys (and children)
   * up one slot, takes the separator as its first key (and the left
   * sibling's last child as its first child), the sibling's last key
   * replaces the separator, and the sibling gives up one key.
   */
  method BorrowFromPrev(node: Tree, idx: nat) returns (r: Tree)
    requires Wf(node) && !node.isLeaf && 0 < idx <= |node.keys|
    requires |node.children[idx - 1].keys| > MIN_KEYS && |node.children[idx].keys| < MAX_KEYS
    ensures r == D.BorrowFromPrev(node, idx)
  {
    var child, sibling := node.children[idx], node.children[idx - 1];
    SiblingsAlike(node, idx - 1, idx);
    assert Wf(child) && Wf(sibling);
    var n := |sibling.keys|;
    var keys := OpenSlot(child.keys, 0, node.keys[idx - 1]);
    var children := child.children;
    if !child.isLeaf {
      children := OpenSlot(child.children, 0, sibling.children[n]);
    }
    var nodeKeys := node.keys[idx - 1 := sibling.keys[n - 1]];
    child := child.(keys := keys, children := children);
    sibling := sibling.(keys := sibling.keys[..n - 1], children := if sibling.isLeaf then [] else sibling.children[..n]);
    assert child == Join(D.LastEdge(node.children[idx - 1]), node.keys[idx - 1], node.children[idx]);
    r := node.(keys := nodeKeys, children := node.children[idx - 1 := sibling][idx := child]);
  }

  /**
   * `borrow_from_next`: the child at `idx` takes the separator after its
   * keys (and the right sibling's first child after its children), the
   * sibling's first key replaces the separator, and the sibling shifts its
   * keys (and children) down one slot over the ones it gave up.
   */
  method BorrowFromNext(node: Tree, idx: nat) returns (r: Tree)
    requires Wf(node) && !node.isLeaf && idx < |node.keys|
    requires |node.children[idx + 1].keys| > MIN_KEYS && |node.children[idx].keys| < MAX_KEYS
    ensures r == D.BorrowFromNext(node, idx)
  {
    var child, sibling := node.children[idx], node.children[idx + 1];
    SiblingsAlike(node, idx, idx + 1);
    assert Wf(child) && Wf(sibling);
    var keys := child.keys + [node.keys[idx]];
    var nodeKeys := node.keys[idx := sibling.keys[0]];
    var siblingKeys := CloseSlot(sibling.keys, 0);
    var children, siblingChildren := child.children, sibling.children;
    if !child.isLeaf {
      children := children + [sibling.children[0]];
      siblingChildren := CloseSlot(sibling.children, 0);
    }
    child := child.(keys := keys, children := children);
    sibling := sibling.(keys := siblingKeys, children := siblingChildren);
    assert child == Join(node.children[idx], node.keys[idx], D.FirstEdge(node.children[idx + 1]));
    assert sibling == D.DropFirst(node.children[idx + 1]);
    r := node.(keys := nodeKeys, children := node.children[idx := child][idx + 1 := sibling]);
  }

  /**
   * The closing loop of `merge_children`: from the front, each key after
   * slot `idx` and each child after slot `idx + 1` moves one slot down,
   * and the last slot of each stops being live.
   */
  method CloseGap(keys: seq<Key>, children: seq<Tree>, idx: nat) returns (ks: seq<Key>, cs: seq<Tree>)
    requires idx < |keys| && |children| == |keys| + 1
    ensures ks == keys[..idx] + keys[idx + 1..]
    ensures cs == children[..idx + 1] + children[idx + 2..]
  {
    var n := |keys|;
    ks, cs := keys, children;
    var i := idx;
    while i < n - 1
      invariant idx <= i <= n - 1 && |ks| == n && |cs| == n + 1
      invariant forall k :: 0 <= k < idx ==> ks[k] == keys[k]
      invariant forall k :: idx <= k < i ==> ks[k] == keys[k + 1]
      invariant forall k :: i < k < n ==> ks[k] == keys[k]
      invariant forall k :: 0 <= k <= idx ==> cs[k] == children[k]
      invariant forall k :: idx < k <= i ==> cs[k] == children[k + 1]
      invariant forall k :: i + 1 < k <= n ==> cs[k] == children[k]
    {
      ks := ks[i := ks[i + 1]];
      cs := cs[i + 1 := cs[i + 2]];
      i := i + 1;
    }
    ks, cs := ks[..n - 1], cs[..n];
    assert ks == keys[..idx] + keys[idx + 1..];
    assert cs == children[..idx + 1] + children[idx + 2..];
  }

  /**
   * `merge_children`: the child at `idx` takes the separator and then the
   * right sibling's keys (and children), the node closes the gap the
   * separator and the sibling leave, and the sibling is freed.
   */
  method MergeChildren(tree: BTree, node: Tree, idx: nat) returns (r: Tree)
    requires Wf(node) && !node.isLeaf && idx < |node.keys|
    requires |node.children[idx].keys| + 1 + |node.children[idx + 1].keys| <= MAX_KEYS
    modifies tree`nodeCount
    ensures r == D.MergeChildren(node, idx)
    ensures tree.nodeCount == old(tree.nodeCount) - 1
  {
    var child, sibling := node.children[idx], node.children[idx + 1];
    SiblingsAlike(node, idx, idx + 1);
    assert Wf(child) && Wf(sibling);
    var keys := child.keys + [node.keys[idx]];
    keys := CopyAfter(keys, sibling.keys);
    var children := child.children;
    if !child.isLeaf {
      children := CopyAfter(children, sibling.children);
    }
    child := child.(keys := keys, children := children);
    var nodeKeys, nodeChildren := CloseGap(node.keys, node.children, idx);
    nodeChildren := nodeChildren[idx := child];
    assert nodeChildren == node.children[..idx] + [child] + node.children[idx + 2..];
    r := node.(keys := nodeKeys, children := nodeChildren);
    tree.nodeCount := tree.nodeCount - 1;
  }

  /**
   * `fill_child`: borrow from the left sibling if it can spare a key, else
   * from the right one, else merge with the right sibling, or with the left
   * one when the child is the last.
   */
  method FillChild(tree: BTree, node: Tree, idx: nat) returns (r: Tree)
    requires Wf(node) && !node.isLeaf && idx <= |node.keys| && |node.keys| >= 1
    requires |node.children[idx].keys| < ORDER
    modifies tree`nodeCount
    ensures r == D.FillChild(node, idx)
    ensures tree.nodeCount == old(tree.nodeCount) + NodeCount(r) - NodeCount(node)
  {
    assert Wf(node.children[idx]);
    D.FillChildCount(node, idx);
    if idx > 0 && |node.children[idx - 1].keys| > MIN_KEYS {
      r := BorrowFromPrev(node, idx);
    } else if idx < |node.keys| && |node.children[idx + 1].keys| > MIN_KEYS {
      r := BorrowFromNext(node, idx);
    } else if idx < |node.keys| {
      assert Wf(node.children[idx + 1]);
      r := MergeChildren(tree, node, idx);
    } else {
      assert Wf(node.children[idx - 1]);
      r := MergeChildren(tree, node, idx - 1);
      assert idx - 1 == D.MergeIndex(node, idx);
    }
  }

  /** `delete_from_leaf`: the keys after slot `idx` move one slot down over it. */
  method DeleteFromLeaf(node: Tree, idx: nat) returns (r: Tree)
    requires idx < |node.keys|
    ensures r == D.DeleteFromLeaf(node, idx)
  {
    var keys := CloseSlot(node.keys, idx);
    r := node.(keys := keys);
  }

  /**
   * `delete_from_non_leaf`: the key at `idx` is overwritten by its
   * predecessor, which is then deleted from the left child, when that child
   * holds at least `t` keys; failing that by its successor, deleted from the
   * right child; otherwise the two children are merged around the key and
   * the deletion goes on in the merged child.
   */
  method DeleteFromNonLeaf(tree: BTree, node: Tree, idx: nat) returns (r: Tree)
    requires Wf(node) && !node.isLeaf && idx < |node.keys|
    modifies tree`nodeCount
    ensures r == D.DeleteFromNonLeaf(node, idx)
    ensures tree.nodeCount == old(tree.nodeCount) + NodeCount(r) - NodeCount(node)
    decreases Height(node), 0
  {
    var key := node.keys[idx];
    var c, s := node.children[idx], node.children[idx + 1];
    assert Wf(c) && Wf(s) && Height(c) < Height(node) && Height(s) < Height(node);
    if |c.keys| >= ORDER {
      var pred := GetPredecessor(c);
      var x := DeleteKey(tree, c, pred);
      ReplaceChildCount(node, idx, x);
      r := node.(keys := node.keys[idx := pred], children := node.children[idx := x]);
    } else if |s.keys| >= ORDER {
      var succ := GetSuccessor(s);
      var x := DeleteKey(tree, s, succ);
      ReplaceChildCount(node, idx + 1, x);
      r := node.(keys := node.keys[idx := succ], children := node.children[idx + 1 := x]);
    } else {
      D.MergeChildrenValid(node, idx);
      var m := MergeChildren(tree, node, idx);
      var x := DeleteKey(tree, m.children[idx], key);
      ReplaceChildCount(m, idx, x);
      r := m.(children := m.children[idx := x]);
    }
  }

  /**
   * Where the scan of `delete_key` stops: the one slot with every key
   * before it sorting strictly before `key` and the key in it, if any, not.
   */
  lemma IndexFound(keys: seq<Key>, key: Key, i: nat)
    requires i <= |keys|
    requires forall j :: 0 <= j < i ==> Strcmp(key, keys[j]) > 0
    requires i < |keys| ==> Strcmp(key, keys[i]) <= 0
    ensures i == D.DeleteIndex(keys, key)
  {
  }

  /** The scan of `delete_key`: forward past every key that `key` sorts after. */
  method FindKey(keys: seq<Key>, key: Key) returns (idx: nat)
    ensures idx == D.DeleteIndex(keys, key)
  {
    idx := 0;
    while idx < |keys| && Strcmp(key, keys[idx]) > 0
      invariant idx <= |keys|
      invariant forall j :: 0 <= j < idx ==> Strcmp(key, keys[j]) > 0
    {
      idx := idx + 1;
    }
    IndexFound(keys, key, idx);
  }

  /**
   * `delete_key`: scan for the key's slot; a key found there is deleted
   * from the leaf or from the internal node; a leaf without it is left
   * alone; otherwise the child at the slot is filled up if it holds fewer
   * than `t` keys, and the deletion goes on in that child, or in the one
   * before it when the child was the last and was merged into it.
   */
  method DeleteKey(tree: BTree, node: Tree, key: Key) returns (r: Tree)
    requires Wf(node) && (node.isLeaf || |node.keys| >= 1)
    modifies tree`nodeCount
    ensures r == D.DeleteKey(node, key)
    ensures tree.nodeCount == old(tree.nodeCount) + NodeCount(r) - NodeCount(node)
    decreases Height(node), 1
  {
    var idx := FindKey(node.keys, key);
    if idx < |node.keys| && Strcmp(key, node.keys[idx]) == 0 {
      if node.isLeaf {
        r := DeleteFromLeaf(node, idx);
      } else {
        r := DeleteFromNonLeaf(tree, node, idx);
      }
    } else if node.isLeaf {
      r := node;
    } else {
      var isLast := idx == |node.keys|;
      D.MakeRoomValid(node, idx);
      var n := node;
      if |n.children[idx].keys| < ORDER {
        n := FillChild(tree, n, idx);
      }
      assert n == D.MakeRoom(node, idx) && Height(n) == Height(node);
      if isLast && idx > |n.keys| {
        r := DeleteInChild(tree, n, idx - 1, key);
      } else {
        r := DeleteInChild(tree, n, idx, key);
      }
    }
  }

  /**
   * The descent at the end of `delete_key`: the deletion goes on in child
   * `j` of a node, which takes the result in that slot.
   */
  method DeleteInChild(tree: BTree, n: Tree, j: nat, key: Key) returns (r: Tree)
    requires Wf(n) && !n.isLeaf && j < |n.children|
    modifies tree`nodeCount
    ensures r == n.(children := n.children[j := D.DeleteKey(n.children[j], key)])
    ensures tree.nodeCount == old(tree.nodeCount) + NodeCount(r) - NodeCount(n)
    decreases Height(n), 0
  {
    assert Wf(n.children[j]) && Height(n.children[j]) < Height(n);
    var x := DeleteKey(tree, n.children[j], key);
    ReplaceChildCount(n, j, x);
    r := n.(children := n.children[j := x]);
  }

  /**
   * `remove_key`: delete from the root; a root left without keys is
   * replaced by a fresh empty leaf when it is a leaf, and by its only child
   * otherwise, and is freed. The tree stays a B-tree whose listing loses one
   * occurrence of the key if it had one and is unchanged otherwise; it
   * never gains a node, and it loses a level only when an internal root
   * with a single key gave it up.
   */
  method RemoveKey(tree: BTree, key: Key)
    requires tree.Valid()
    modifies tree
    ensures tree.Valid() && tree.root == D.RemoveKey(old(tree.root), key)
    ensures tree.Keys() == Remove(old(tree.Keys()), key)
    ensures multiset(tree.Keys()) == multiset(old(tree.Keys())) - multiset{key}
    ensures key !in old(tree.Keys()) ==> tree.Keys() == old(tree.Keys())
    ensures key in old(tree.Keys()) ==> |tree.Keys()| + 1 == |old(tree.Keys())|
    ensures tree.nodeCount <= old(tree.nodeCount)
    ensures old(tree.root).isLeaf ==> tree.root.isLeaf && tree.nodeCount == old(tree.nodeCount)
    ensures Height(tree.root) == Height(old(tree.root)) ||
      (Height(tree.root) + 1 == Height(old(tree.root)) && |old(tree.root).keys| == 1)
  {
    var root := tree.root;
    D.DeleteKeyValid(root, key);
    tree.root := DeleteKey(tree, root, key);
    ShrinkRoot(tree);
    D.RemoveKeyValid(root, key);
    assert tree.root == D.RemoveKey(root, key);
  }

  /**
   * The end of `remove_key`: a root without keys is replaced by a fresh
   * empty leaf when it is a leaf and by its only child otherwise, and is
   * freed, so that the count stays that of the nodes in the tree.
   */
  method ShrinkRoot(tree: BTree)
    requires Wf(tree.root) && tree.nodeCount == NodeCount(tree.root)
    modifies tree
    ensures tree.root == D.Shrink(old(tree.root)) && tree.nodeCount == NodeCount(tree.root)
  {
    if |tree.root.keys| == 0 {
      var oldRoot := tree.root;
      if oldRoot.isLeaf {
        tree.root := CreateNode(true);
        tree.nodeCount := tree.nodeCount + 1;
      } else {
        D.RootCollapse(oldRoot);
        tree.root := oldRoot.children[0];
      }
      tree.nodeCount := tree.nodeCount - 1;
    }
  }
}
