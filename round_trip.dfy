/**
 * Insertion and deletion together (utils/btree.c, `insert_key` and
 * `remove_key`): deleting a key right after inserting it gives the tree
 * back the keys it listed before, and a tree emptied of keys is a single
 * empty leaf.
 */
module RoundTrip {
  import opened KeyOrder
  import opened KeySeq
  import opened BTreeSpec
  import I = InsertSpec
  import D = DeleteSpec

  /**
   * `remove_key` undoes `insert_key` on the listing: the copy it deletes
   * may be another one equal to the key, but the listing is the same.
   */
  lemma InsertThenRemoveKey(root: Tree, key: Key)
    requires IsBTree(root)
    ensures IsBTree(I.InsertKey(root, key))
    ensures Listing(D.RemoveKey(I.InsertKey(root, key), key)) == Listing(root)
  {
    I.InsertKeyValid(root, key);
    var r := I.InsertKey(root, key);
    D.RemoveKeyValid(r, key);
    InsertThenRemove(Listing(root), key);
  }

  /**
   * A B-tree that lists no keys is a single empty leaf: once every key has
   * been removed, `node_count` is back to 1, whatever the tree held before.
   */
  lemma Drained(t: Tree)
    requires IsBTree(t) && Listing(t) == []
    ensures t == Tree(true, [], []) && NodeCount(t) == 1
  {
    ListingEmpty(t);
  }

  /**
   * Inserting a key into an empty tree and removing it again leaves an
   * empty tree of one node, the state `create_btree` starts from.
   */
  lemma EmptyRoundTrip(key: Key)
    ensures var e := Tree(true, [], []);
      IsBTree(I.InsertKey(e, key)) &&
      var r := D.RemoveKey(I.InsertKey(e, key), key);
      r == e && Listing(r) == [] && NodeCount(r) == 1
  {
    var e := Tree(true, [], []);
    assert IsBTree(e);
    I.InsertKeyValid(e, key);
    var s := I.InsertKey(e, key);
    D.RemoveKeyValid(s, key);
    InsertThenRemove([], key);
    Drained(D.RemoveKey(s, key));
  }

  /** A root with one key over two leaves of `t-1` keys each. */
  function ThinTree(): Tree {
    Tree(false, ["c"], [Tree(true, ["a", "b"], []), Tree(true, ["d", "e"], [])])
  }

  /** What the five keys of `ThinTree` become once merged into one leaf. */
  function MergedLeaf(): Tree {
    Tree(true, ["a", "b", "c", "d", "e"], [])
  }

  lemma ThinTreeIsBTree()
    ensures IsBTree(ThinTree()) && Listing(ThinTree()) == MergedLeaf().keys
  {
    var t := ThinTree();
    assert Wf(t.children[0]) && Wf(t.children[1]) && Height(t) == 1;
    assert Listing(t) == ["a", "b", "c", "d", "e"];
    assert Less("a", "b") && Less("b", "c") && Less("c", "d") && Less("d", "e");
  }

  lemma ThinTreeFill()
    requires Wf(ThinTree())
    ensures D.FillChild(ThinTree(), 1) == Tree(false, [], [MergedLeaf()])
  {
    var t := ThinTree();
    assert D.FillChild(t, 1) == D.MergeChildren(t, 0);
    assert Join(t.children[0], "c", t.children[1]) == MergedLeaf();
  }

  lemma ThinTreeRemove()
    requires Wf(ThinTree())
    ensures D.RemoveKey(ThinTree(), "z") == MergedLeaf()
  {
    var t := ThinTree();
    assert Strcmp("z", "c") > 0;
    assert !D.Found(t.keys, "z") && D.DeleteIndex(t.keys, "z") == 1;
    ThinTreeFill();
    assert D.DeleteKey(MergedLeaf(), "z") == MergedLeaf();
    assert D.DeleteKey(t, "z") == Tree(false, [], [MergedLeaf()]);
  }

  /**
   * Deleting a key that is not there can still shrink the tree: in a root
   * with one key over two leaves of `t-1` keys, `delete_key` merges the
   * leaves on its way down past the last key and `remove_key` then drops
   * the emptied root, so `node_count` falls by two while the listing stays
   * the same.
   */
  lemma AbsentKeyMerges()
    ensures var t := ThinTree();
      var r := D.RemoveKey(t, "z");
      IsBTree(t) && "z" !in Listing(t) && Listing(r) == Listing(t) &&
      NodeCount(t) == 3 && NodeCount(r) == 1 && r == MergedLeaf()
  {
    ThinTreeIsBTree();
    ThinTreeRemove();
    assert NodeCount(ThinTree()) == 3;
  }
}
