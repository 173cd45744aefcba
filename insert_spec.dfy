/**
 * Insertion on tree values (utils/btree.c, `split_child`,
 * `insert_non_full`, `insert_key`): the single-pass descent that splits
 * every full child before entering it, so the key always lands in a leaf
 * with room. The functions follow the C code step by step; the lemmas say
 * what the code achieves.
 */
module InsertSpec {
  import opened KeyOrder
  import opened KeySeq
  import opened BTreeSpec

  /**
   * The slot `insert_non_full` settles on: it walks down from the last key
   * while `key` sorts strictly before it, so every key from the slot on is
   * greater than `key` and the key just before the slot is not.
   */
  function InsertIndex(keys: seq<Key>, key: Key): (i: nat)
    ensures i <= |keys|
    ensures forall j :: i <= j < |keys| ==> Strcmp(key, keys[j]) < 0
    ensures i > 0 ==> Strcmp(key, keys[i - 1]) >= 0
  {
    SlotBelow(keys, key, |keys|)
  }

  /** The walk down from slot `n`: the first slot, counting down, whose key before it does not sort after `key`. */
  function SlotBelow(keys: seq<Key>, key: Key, n: nat): (i: nat)
    requires n <= |keys|
    ensures i <= n
    ensures forall j :: i <= j < n ==> Strcmp(key, keys[j]) < 0
    ensures i > 0 ==> Strcmp(key, keys[i - 1]) >= 0
  {
    if n == 0 || Strcmp(key, keys[n - 1]) >= 0 then n
    else SlotBelow(keys, key, n - 1)
  }

  /** In sorted keys, nothing before the slot sorts after `key`. */
  lemma InsertIndexSorted(keys: seq<Key>, key: Key)
    requires Sorted(keys)
    ensures forall j :: 0 <= j < InsertIndex(keys, key) ==> !Less(key, keys[j])
  {
    var i := InsertIndex(keys, key);
    forall j | 0 <= j < i ensures !Less(key, keys[j]) {
      if Less(key, keys[j]) {
        LeLessTransitive(key, keys[j], keys[i - 1]);
      }
    }
  }

  /** A leaf's insertion at the slot is the sorted insertion behind equal keys. */
  lemma LeafInsert(keys: seq<Key>, key: Key)
    requires Sorted(keys)
    ensures var i := InsertIndex(keys, key); keys[..i] + [key] + keys[i..] == Insert(keys, key)
  {
    InsertIndexSorted(keys, key);
    InsertAt(keys, key, InsertIndex(keys, key));
  }

  /** The child a full node keeps when it is split: its lower `t-1` keys and `t` children. */
  function LowerHalf(c: Tree): Tree
    requires Wf(c) && |c.keys| == MAX_KEYS
  {
    Tree(c.isLeaf, c.keys[..ORDER - 1], if c.isLeaf then [] else c.children[..ORDER])
  }

  /** The new right sibling of a split node: its upper `t-1` keys and `t` children. */
  function UpperHalf(c: Tree): Tree
    requires Wf(c) && |c.keys| == MAX_KEYS
  {
    Tree(c.isLeaf, c.keys[ORDER..], if c.isLeaf then [] else c.children[ORDER..])
  }

  /**
   * `split_child`: the full child at `index` is cut into its two halves and
   * its median key moves up to `keys[index]` of the parent.
   */
  function SplitChild(t: Tree, index: nat): Tree
    requires Wf(t) && !t.isLeaf && |t.keys| < MAX_KEYS
    requires index < |t.children| && |t.children[index].keys| == MAX_KEYS
  {
    var c := t.children[index];
    Tree(t.isLeaf,
         t.keys[..index] + [c.keys[ORDER - 1]] + t.keys[index..],
         t.children[..index] + [LowerHalf(c), UpperHalf(c)] + t.children[index + 1..])
  }

  /** The halves of a full node are well formed at its height and hold `t-1` keys each. */
  lemma HalvesWf(c: Tree)
    requires Wf(c) && |c.keys| == MAX_KEYS
    ensures Wf(LowerHalf(c)) && Wf(UpperHalf(c))
    ensures Height(LowerHalf(c)) == Height(c) == Height(UpperHalf(c))
    ensures |LowerHalf(c).keys| == MIN_KEYS == |UpperHalf(c).keys|
  {
    if !c.isLeaf {
      var lo, hi := LowerHalf(c), UpperHalf(c);
      assert lo.children[0] == c.children[0];
      assert hi.children[0] == c.children[ORDER];
      assert forall k :: 0 <= k < |lo.children| ==> lo.children[k] == c.children[k];
      assert forall k :: 0 <= k < |hi.children| ==> hi.children[k] == c.children[ORDER + k];
    }
  }

  /** The halves of a full node list its keys on either side of the median. */
  lemma HalvesListing(c: Tree)
    requires Wf(c) && |c.keys| == MAX_KEYS
    ensures Listing(c) == Listing(LowerHalf(c)) + [c.keys[ORDER - 1]] + Listing(UpperHalf(c))
  {
    var lo, hi := LowerHalf(c), UpperHalf(c);
    if c.isLeaf {
      assert c.keys == lo.keys + [c.keys[ORDER - 1]] + hi.keys;
    } else {
      var css := Listings(c.children);
      assert css[..ORDER] == Listings(lo.children);
      assert css[ORDER..] == Listings(hi.children);
      FlattenSplit(css, c.keys, ORDER - 1);
    }
  }

  /** Between them the halves of a full node count one node more than it. */
  lemma HalvesCount(c: Tree)
    requires Wf(c) && |c.keys| == MAX_KEYS
    ensures NodeCount(LowerHalf(c)) + NodeCount(UpperHalf(c)) == NodeCount(c) + 1
  {
    if !c.isLeaf {
      var lo, hi := LowerHalf(c), UpperHalf(c);
      assert c.children == lo.children + hi.children;
      CountsConcat(lo.children, hi.children);
      SumConcat(Counts(lo.children), Counts(hi.children));
    }
  }

  /**
   * Splitting a full child keeps the node well formed at the same height
   * and keeps its listing; the node gains the median key and one child,
   * both halves hold `t-1` keys, and the tree one node.
   */
  lemma SplitChildValid(t: Tree, index: nat)
    requires Wf(t) && !t.isLeaf && |t.keys| < MAX_KEYS
    requires index < |t.children| && |t.children[index].keys| == MAX_KEYS
    ensures var s := SplitChild(t, index);
      Wf(s) && !s.isLeaf && Height(s) == Height(t) &&
      Listing(s) == Listing(t) && NodeCount(s) == NodeCount(t) + 1 &&
      |s.keys| == |t.keys| + 1 && s.keys[index] == t.children[index].keys[ORDER - 1] &&
      |s.children[index].keys| == MIN_KEYS && |s.children[index + 1].keys| == MIN_KEYS
  {
    SplitChildWf(t, index);
    SplitChildListing(t, index);
    SplitChildCount(t, index);
  }

  lemma SplitChildWf(t: Tree, index: nat)
    requires Wf(t) && !t.isLeaf && |t.keys| < MAX_KEYS
    requires index < |t.children| && |t.children[index].keys| == MAX_KEYS
    ensures Wf(SplitChild(t, index)) && Height(SplitChild(t, index)) == Height(t)
  {
    var s := SplitChild(t, index);
    var c := t.children[index];
    HalvesWf(c);
    assert Height(s) == Height(t) by {
      SplitAt(t.children, index, LowerHalf(c), UpperHalf(c), 0);
    }
    forall k | 0 <= k < |s.children|
      ensures Wf(s.children[k]) && MIN_KEYS <= |s.children[k].keys| && Height(s.children[k]) + 1 == Height(s)
    {
      SplitAt(t.children, index, LowerHalf(c), UpperHalf(c), k);
    }
  }

  lemma SplitChildListing(t: Tree, index: nat)
    requires Wf(t) && !t.isLeaf && |t.keys| < MAX_KEYS
    requires index < |t.children| && |t.children[index].keys| == MAX_KEYS
    ensures Listing(SplitChild(t, index)) == Listing(t)
  {
    var s := SplitChild(t, index);
    var c := t.children[index];
    var lo, hi := LowerHalf(c), UpperHalf(c);
    HalvesListing(c);
    var css := Listings(t.children);
    ListingsSplit(t.children, index, lo, hi);
    FlattenSplitAt(css, t.keys, index, Listing(lo), c.keys[ORDER - 1], Listing(hi));
  }

  lemma SplitChildCount(t: Tree, index: nat)
    requires Wf(t) && !t.isLeaf && |t.keys| < MAX_KEYS
    requires index < |t.children| && |t.children[index].keys| == MAX_KEYS
    ensures NodeCount(SplitChild(t, index)) == NodeCount(t) + 1
  {
    var s := SplitChild(t, index);
    var c := t.children[index];
    var lo, hi := LowerHalf(c), UpperHalf(c);
    HalvesCount(c);
    var cts := Counts(t.children);
    CountsSplit(t.children, index, lo, hi);
    SumSplitAt(cts, index, NodeCount(lo), NodeCount(hi));
  }

  /**
   * `insert_non_full`: a leaf takes the key at its slot; an internal node
   * splits the child at the slot if that child is full, steps right when
   * the key sorts after the median that came up, and inserts into that
   * child.
   */
  function InsertNonFull(t: Tree, key: Key): Tree
    requires Wf(t) && |t.keys| < MAX_KEYS
    decreases Height(t), 1
  {
    var i := InsertIndex(t.keys, key);
    if t.isLeaf then
      t.(keys := t.keys[..i] + [key] + t.keys[i..])
    else if |t.children[i].keys| == MAX_KEYS then
      SplitChildValid(t, i);
      var s := SplitChild(t, i);
      InsertInChild(s, if Strcmp(key, s.keys[i]) > 0 then i + 1 else i, key)
    else
      assert Wf(t.children[i]);
      InsertInChild(t, i, key)
  }

  /** The recursive step of `insert_non_full`: the key goes into child `j`, which has room. */
  function InsertInChild(t: Tree, j: nat, key: Key): Tree
    requires Wf(t) && !t.isLeaf && j < |t.children| && |t.children[j].keys| < MAX_KEYS
    decreases Height(t), 0
  {
    assert Wf(t.children[j]);
    t.(children := t.children[j := InsertNonFull(t.children[j], key)])
  }

  /**
   * Inserting into a node with room keeps it well formed at the same
   * height; the node gains at most one key (and none when it is internal
   * and the child at the slot was not full), and no node is lost.
   */
  lemma {:induction false} InsertNonFullValid(t: Tree, key: Key)
    requires Wf(t) && |t.keys| < MAX_KEYS
    ensures var r := InsertNonFull(t, key);
      Wf(r) && Height(r) == Height(t) && r.isLeaf == t.isLeaf &&
      |t.keys| <= |r.keys| <= |t.keys| + 1 && NodeCount(r) >= NodeCount(t)
    ensures !t.isLeaf && |t.children[InsertIndex(t.keys, key)].keys| < MAX_KEYS ==>
              InsertNonFull(t, key).keys == t.keys
    decreases Height(t)
  {
    var i := InsertIndex(t.keys, key);
    if !t.isLeaf {
      if |t.children[i].keys| == MAX_KEYS {
        SplitChildValid(t, i);
        var s := SplitChild(t, i);
        var j := if Strcmp(key, s.keys[i]) > 0 then i + 1 else i;
        InsertNonFullValid(s.children[j], key);
        var x := InsertNonFull(s.children[j], key);
        ReplaceChildWf(s, j, x);
        ReplaceChild(s, j, x);
      } else {
        InsertNonFullValid(t.children[i], key);
        var x := InsertNonFull(t.children[i], key);
        ReplaceChildWf(t, i, x);
        ReplaceChild(t, i, x);
      }
    }
  }

  /**
   * Inserting into child `j` of a node with a sorted listing inserts into
   * the whole listing, provided the separators on either side of child `j`
   * bracket the key.
   */
  lemma DescendInsert(t: Tree, j: nat, key: Key, x: Tree)
    requires !t.isLeaf && |t.children| == |t.keys| + 1 && j < |t.children| && Sorted(Listing(t))
    requires j == 0 || Le(t.keys[j - 1], key)
    requires j == |t.keys| || Le(key, t.keys[j])
    requires Listing(x) == Insert(Listing(t.children[j]), key)
    ensures Listing(t.(children := t.children[j := x])) == Insert(Listing(t), key)
  {
    ReplaceChild(t, j, x);
    ListingAround(t, j);
    InsertMiddle(FlattenBefore(Listings(t.children), t.keys, j), Listing(t.children[j]),
                 FlattenAfter(Listings(t.children), t.keys, j), key);
  }

  /** Inserting into a node with room inserts the key into its listing, behind any equal keys. */
  lemma {:induction false} InsertNonFullListing(t: Tree, key: Key)
    requires Wf(t) && |t.keys| < MAX_KEYS && Sorted(Listing(t))
    ensures Listing(InsertNonFull(t, key)) == Insert(Listing(t), key)
    decreases Height(t), 1
  {
    var i := InsertIndex(t.keys, key);
    KeysSorted(t);
    InsertIndexSorted(t.keys, key);
    if t.isLeaf {
      LeafInsert(t.keys, key);
    } else if |t.children[i].keys| == MAX_KEYS {
      SplitThenInsertListing(t, key);
    } else {
      if i > 0 {
        NotLessIsLe(t.keys[i - 1], key);
      }
      ChildSorted(t, i);
      InsertNonFullListing(t.children[i], key);
      DescendInsert(t, i, key, InsertNonFull(t.children[i], key));
    }
  }

  /**
   * When the child at the slot is full, the median that comes up from it
   * sends the key to the half whose range holds it.
   */
  lemma {:induction false} SplitThenInsertListing(t: Tree, key: Key)
    requires Wf(t) && |t.keys| < MAX_KEYS && Sorted(Listing(t)) && !t.isLeaf
    requires |t.children[InsertIndex(t.keys, key)].keys| == MAX_KEYS
    ensures Listing(InsertNonFull(t, key)) == Insert(Listing(t), key)
    decreases Height(t), 0
  {
    var i := InsertIndex(t.keys, key);
    var s := SplitChild(t, i);
    var j := if Strcmp(key, s.keys[i]) > 0 then i + 1 else i;
    assert Wf(s) && !s.isLeaf && Listing(s) == Listing(t) && Height(s) == Height(t) &&
           |s.children[j].keys| == MIN_KEYS by {
      SplitChildValid(t, i);
    }
    assert (j == 0 || Le(s.keys[j - 1], key)) && (j == |s.keys| || Le(key, s.keys[j])) by {
      KeysSorted(t);
      SplitBrackets(t.keys, key, t.children[i].keys[ORDER - 1], i, s.keys, j);
    }
    var c := s.children[j];
    assert Wf(c) && Height(c) < Height(t) && Sorted(Listing(c)) && |c.keys| < MAX_KEYS by {
      ChildSorted(s, j);
    }
    var x := InsertNonFull(c, key);
    assert Listing(x) == Insert(Listing(c), key) by {
      InsertNonFullListing(c, key);
    }
    assert Listing(s.(children := s.children[j := x])) == Insert(Listing(t), key) by {
      DescendInsert(s, j, key, x);
    }
    assert InsertNonFull(t, key) == InsertInChild(s, j, key) == s.(children := s.children[j := x]);
  }

  /**
   * After a median `m` comes up at the slot, the key goes left of it unless
   * it sorts strictly after it, and either way the separators around the
   * chosen child bracket the key.
   */
  lemma SplitBrackets(ks: seq<Key>, key: Key, m: Key, i: nat, ks': seq<Key>, j: nat)
    requires Sorted(ks) && i == InsertIndex(ks, key) && ks' == ks[..i] + [m] + ks[i..]
    requires j == if Strcmp(key, m) > 0 then i + 1 else i
    ensures j < |ks'| + 1
    ensures (j == 0 || Le(ks'[j - 1], key)) && (j == |ks'| || Le(key, ks'[j]))
  {
    StrcmpAntisymmetric(key, m);
    InsertIndexSorted(ks, key);
    if i > 0 {
      NotLessIsLe(ks[i - 1], key);
      assert ks'[i - 1] == ks[i - 1];
    }
    if i < |ks| {
      assert ks'[i + 1] == ks[i];
    }
  }

  /**
   * `insert_key`: a full root is first pushed down under a new empty root
   * and split there; then the key goes in from the root.
   */
  function InsertKey(root: Tree, key: Key): Tree
    requires Wf(root)
  {
    if |root.keys| == MAX_KEYS then
      var r := Tree(false, [], [root]);
      assert Wf(r);
      SplitChildValid(r, 0);
      InsertNonFull(SplitChild(r, 0), key)
    else
      InsertNonFull(root, key)
  }

  /**
   * Inserting into a B-tree gives a B-tree whose listing is the old one
   * with the key inserted behind any equal keys. The tree grows in height
   * only when the root was full; then the new root holds exactly one key
   * and at least two nodes were added.
   */
  lemma InsertKeyValid(root: Tree, key: Key)
    requires IsBTree(root)
    ensures var r := InsertKey(root, key);
      IsBTree(r) && Listing(r) == Insert(Listing(root), key) &&
      multiset(Listing(r)) == multiset(Listing(root)) + multiset{key}
    ensures |root.keys| == MAX_KEYS ==>
      var r := InsertKey(root, key);
      Height(r) == Height(root) + 1 && |r.keys| == 1 && NodeCount(r) >= NodeCount(root) + 2
    ensures |root.keys| < MAX_KEYS ==>
      var r := InsertKey(root, key);
      Height(r) == Height(root) && NodeCount(r) >= NodeCount(root)
  {
    if |root.keys| == MAX_KEYS {
      var r0 := Tree(false, [], [root]);
      NewRoot(root);
      SplitChildValid(r0, 0);
      var s := SplitChild(r0, 0);
      InsertNonFullValid(s, key);
      InsertNonFullListing(s, key);
    } else {
      InsertNonFullValid(root, key);
      InsertNonFullListing(root, key);
    }
    InsertSorted(Listing(root), key);
    InsertMultiset(Listing(root), key);
  }

  /** A new empty root above the old one: one level and one node more, the same listing. */
  lemma NewRoot(root: Tree)
    requires Wf(root) && |root.keys| == MAX_KEYS
    ensures var r := Tree(false, [], [root]);
      Wf(r) && Height(r) == Height(root) + 1 &&
      Listing(r) == Listing(root) && NodeCount(r) == NodeCount(root) + 1
  {
    var r := Tree(false, [], [root]);
    assert Listings(r.children) == [Listing(root)];
    assert Counts(r.children) == [NodeCount(root)];
    assert [NodeCount(root)][1..] == [];
    assert Sum([NodeCount(root)]) == NodeCount(root) + Sum([]);
  }

  /**
   * Where the key lands: every key listed before it is no greater than
   * it, and every key listed after it is strictly greater.
   */
  lemma InsertKeyPosition(root: Tree, key: Key)
    requires IsBTree(root)
    ensures var l, p := Listing(root), InsertPosition(Listing(root), key);
      Listing(InsertKey(root, key)) == l[..p] + [key] + l[p..] &&
      (forall j :: 0 <= j < p ==> Le(l[j], key)) &&
      (forall j :: p <= j < |l| ==> Less(key, l[j]))
  {
    var l := Listing(root);
    var p := InsertPosition(l, key);
    InsertKeyValid(root, key);
    InsertAt(l, key, p);
    forall j | 0 <= j < p ensures Le(l[j], key) {
      NotLessIsLe(l[j], key);
    }
  }
}
