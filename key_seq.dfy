/**
 * Sequences of keys as the B-tree sees them: the in-order listing of a
 * subtree, what inserting and deleting one key do to that listing, and the
 * bookkeeping of node counts.
 */
module KeySeq {
  import opened KeyOrder

  /** Keys in non-decreasing `strcmp` order (duplicates allowed). */
  ghost predicate Sorted(s: seq<Key>) {
    forall i, j {:trigger Le(s[i], s[j])} :: 0 <= i < j < |s| ==> Le(s[i], s[j])
  }

  lemma SortedSlice(s: seq<Key>, lo: nat, hi: nat)
    requires Sorted(s) && lo <= hi <= |s|
    ensures Sorted(s[lo..hi])
  {
    forall i, j | 0 <= i < j < hi - lo ensures Le(s[lo..hi][i], s[lo..hi][j]) {
      assert s[lo..hi][i] == s[lo + i] && s[lo..hi][j] == s[lo + j];
    }
  }

  lemma SortedInfix(a: seq<Key>, m: seq<Key>, b: seq<Key>)
    requires Sorted(a + m + b)
    ensures Sorted(m) && Sorted(a) && Sorted(b)
  {
    var s := a + m + b;
    SortedSlice(s, |a|, |a| + |m|);
    assert s[|a|..|a| + |m|] == m;
    SortedSlice(s, 0, |a|);
    assert s[..|a|] == a;
    SortedSlice(s, |a| + |m|, |s|);
    assert s[|a| + |m|..] == b;
  }

  /** Joining two sorted runs that meet in order gives a sorted run. */
  lemma SortedConcat(a: seq<Key>, b: seq<Key>)
    requires Sorted(a) && Sorted(b)
    requires a == [] || b == [] || Le(a[|a| - 1], b[0])
    ensures Sorted(a + b)
  {
    var s := a + b;
    forall i, j | 0 <= i < j < |s| ensures Le(s[i], s[j]) {
      if i < |a| && |a| <= j {
        LeTransitive(s[i], a[|a| - 1], b[0]);
        LeTransitive(s[i], b[0], s[j]);
      }
    }
  }

  // ---------------------------------------------------------------------
  // Insertion of one key
  // ---------------------------------------------------------------------

  /**
   * `s` with `x` inserted just before the first key that sorts strictly
   * after `x`: behind every key equal to it.
   */
  function Insert(s: seq<Key>, x: Key): seq<Key> {
    if s == [] then [x]
    else if Less(x, s[0]) then [x] + s
    else [s[0]] + Insert(s[1..], x)
  }

  /** The key lands at `p` when everything before `p` is `<= x` and everything from `p` on is `> x`. */
  lemma {:induction false} InsertAt(s: seq<Key>, x: Key, p: nat)
    requires p <= |s|
    requires forall j :: 0 <= j < p ==> !Less(x, s[j])
    requires forall j :: p <= j < |s| ==> Less(x, s[j])
    ensures Insert(s, x) == s[..p] + [x] + s[p..]
  {
    if s != [] && p > 0 {
      assert !Less(x, s[0]);
      InsertAt(s[1..], x, p - 1);
      assert s[1..][..p - 1] == s[1..p];
      assert s[..p] == [s[0]] + s[1..p];
    }
  }

  /** Inserting a key no greater than any element puts it in front. */
  lemma {:induction false} InsertFront(s: seq<Key>, x: Key)
    requires Sorted(s)
    requires s == [] || Le(x, s[0])
    ensures Insert(s, x) == [x] + s
  {
    if s != [] && !Less(x, s[0]) {
      assert s[0] == x;
      SortedSlice(s, 1, |s|);
      if |s| > 1 {
        LeTransitive(x, s[0], s[1]);
      }
      InsertFront(s[1..], x);
      assert [x] + s == [s[0]] + ([x] + s[1..]);
    }
  }

  /** Inserting in front of a run of keys no smaller than `x` leaves that run alone. */
  lemma {:induction false} InsertBeforeTail(m: seq<Key>, b: seq<Key>, x: Key)
    requires Sorted(m + b)
    requires b == [] || Le(x, b[0])
    ensures Insert(m + b, x) == Insert(m, x) + b
    decreases |m|
  {
    if m == [] {
      assert m + b == b;
      InsertFront(b, x);
    } else {
      var s := m + b;
      assert s[0] == m[0] && s[1..] == m[1..] + b;
      if !Less(x, m[0]) {
        SortedSlice(s, 1, |s|);
        InsertBeforeTail(m[1..], b, x);
      }
    }
  }

  /** Inserting into a sorted listing only touches the part whose range holds `x`. */
  lemma {:induction false} InsertMiddle(a: seq<Key>, m: seq<Key>, b: seq<Key>, x: Key)
    requires Sorted(a + m + b)
    requires a == [] || Le(a[|a| - 1], x)
    requires b == [] || Le(x, b[0])
    ensures Insert(a + m + b, x) == a + Insert(m, x) + b
    decreases |a|
  {
    var s := a + m + b;
    if a == [] {
      assert s == m + b;
      InsertBeforeTail(m, b, x);
    } else {
      assert s[0] == a[0] && s[1..] == a[1..] + m + b;
      assert s[|a| - 1] == a[|a| - 1];
      LeTransitive(a[0], a[|a| - 1], x);
      NotLessIsLe(a[0], x);
      SortedSlice(s, 1, |s|);
      if |a| > 1 {
        assert a[1..][|a| - 2] == a[|a| - 1];
      }
      InsertMiddle(a[1..], m, b, x);
    }
  }

  lemma {:induction false} InsertSorted(s: seq<Key>, x: Key)
    requires Sorted(s)
    ensures Sorted(Insert(s, x))
  {
    if s == [] {
    } else if Less(x, s[0]) {
      SortedConcat([x], s);
    } else {
      SortedSlice(s, 1, |s|);
      InsertSorted(s[1..], x);
      NotLessIsLe(s[0], x);
      var t := Insert(s[1..], x);
      InsertHead(s[1..], x);
      assert t[0] == x || t[0] == s[1..][0];
      SortedConcat([s[0]], t);
    }
  }

  /** The first element of `Insert(s, x)` is `x` or the first element of `s`. */
  lemma InsertHead(s: seq<Key>, x: Key)
    ensures Insert(s, x) != []
    ensures Insert(s, x)[0] == x || (s != [] && Insert(s, x)[0] == s[0])
  {
  }

  lemma {:induction false} InsertMultiset(s: seq<Key>, x: Key)
    ensures multiset(Insert(s, x)) == multiset(s) + multiset{x}
    ensures |Insert(s, x)| == |s| + 1
  {
    if s != [] && !Less(x, s[0]) {
      InsertMultiset(s[1..], x);
      assert s == [s[0]] + s[1..];
    }
  }

  // ---------------------------------------------------------------------
  // Removal of one occurrence
  // ---------------------------------------------------------------------

  /** Putting back the two elements that a splice at `i` replaced by one. */
  lemma Unsplice<T>(s: seq<T>, i: nat, x: T)
    requires i + 1 < |s|
    ensures var c := s[..i] + [x] + s[i + 2..];
      |c| + 1 == |s| && c[..i] + [s[i], s[i + 1]] + c[i + 1..] == s
  {
    var c := s[..i] + [x] + s[i + 2..];
    assert c[..i] == s[..i];
    assert c[i + 1..] == s[i + 2..];
    assert s == s[..i] + [s[i], s[i + 1]] + s[i + 2..];
  }

  /** Putting back the element deleted at `i`. */
  lemma Undelete<T>(s: seq<T>, i: nat)
    requires i < |s|
    ensures var c := s[..i] + s[i + 1..];
      |c| + 1 == |s| && c[..i] + [s[i]] + c[i..] == s
  {
    var c := s[..i] + s[i + 1..];
    assert c[..i] == s[..i];
    assert c[i..] == s[i + 1..];
    assert s == s[..i] + [s[i]] + s[i + 1..];
  }

  /** Moving the middle piece from one side of two separators to the other. */
  lemma Regroup(a: seq<Key>, x: Key, g: seq<Key>, y: Key, b: seq<Key>)
    ensures a + [x] + (g + [y] + b) == (a + [x] + g) + [y] + b
  {
  }

  /** The last element of a non-empty sequence. */
  function Last(s: seq<Key>): Key
    requires s != []
  {
    s[|s| - 1]
  }

  /** `s` without its first occurrence of `x`; `s` itself when `x` does not occur. */
  function Remove(s: seq<Key>, x: Key): seq<Key> {
    if s == [] then []
    else if s[0] == x then s[1..]
    else [s[0]] + Remove(s[1..], x)
  }

  lemma {:induction false} RemoveMultiset(s: seq<Key>, x: Key)
    ensures multiset(Remove(s, x)) == multiset(s) - multiset{x}
    ensures |Remove(s, x)| == if x in s then |s| - 1 else |s|
  {
    if s != [] {
      assert s == [s[0]] + s[1..];
      if s[0] != x {
        RemoveMultiset(s[1..], x);
      }
    }
  }

  lemma {:induction false} RemoveAbsent(s: seq<Key>, x: Key)
    requires x !in s
    ensures Remove(s, x) == s
  {
    if s != [] {
      RemoveAbsent(s[1..], x);
    }
  }

  /**
   * In a sorted listing all copies of a key sit side by side, so deleting
   * any one of them leaves the same listing as deleting the first.
   */
  lemma {:induction false} RemoveAtSorted(s: seq<Key>, j: nat)
    requires Sorted(s) && j < |s|
    ensures Remove(s, s[j]) == s[..j] + s[j + 1..]
  {
    if s[0] == s[j] {
      if j > 0 {
        forall k | 0 <= k <= j ensures s[k] == s[j] {
          LeAntisymmetric(s[k], s[j]);
        }
        assert s[..j] + s[j + 1..] == s[1..j + 1] + s[j + 1..];
        assert s[1..] == s[1..j + 1] + s[j + 1..];
      }
    } else {
      SortedSlice(s, 1, |s|);
      RemoveAtSorted(s[1..], j - 1);
      assert s[1..][j - 1] == s[j];
      assert s[..j] == [s[0]] + s[1..][..j - 1];
      assert s[j + 1..] == s[1..][j..];
    }
  }

  /** Deleting from a sorted listing only touches the part whose range holds `x`. */
  lemma RemoveMiddle(a: seq<Key>, m: seq<Key>, b: seq<Key>, x: Key)
    requires Sorted(a + m + b)
    requires a == [] || Less(a[|a| - 1], x)
    requires b == [] || Less(x, b[0])
    ensures Remove(a + m + b, x) == a + Remove(m, x) + b
  {
    var s := a + m + b;
    assert x !in a by {
      if x in a {
        var k :| 0 <= k < |a| && a[k] == x;
        assert s[k] == x && s[|a| - 1] == a[|a| - 1];
        LessTrichotomy(x, a[|a| - 1]);
        LeLessTransitive(x, a[|a| - 1], x);
        LessTrichotomy(x, x);
      }
    }
    assert x !in b by {
      if x in b {
        var k :| 0 <= k < |b| && b[k] == x;
        assert s[|a| + |m| + k] == x && s[|a| + |m|] == b[0];
        LeLessTransitive(x, b[0], x);
        LessTrichotomy(x, x);
      }
    }
    RemoveOutside(a, m, b, x);
  }

  lemma {:induction false} RemoveOutside(a: seq<Key>, m: seq<Key>, b: seq<Key>, x: Key)
    requires x !in a && x !in b
    ensures Remove(a + m + b, x) == a + Remove(m, x) + b
  {
    if a != [] {
      RemoveOutside(a[1..], m, b, x);
      assert a + m + b == [a[0]] + (a[1..] + m + b);
    } else if m != [] {
      assert a + m + b == m + b;
      assert (m + b)[0] == m[0] && (m + b)[1..] == m[1..] + b;
      if m[0] != x {
        RemoveOutside([], m[1..], b, x);
        assert [] + m[1..] + b == m[1..] + b;
      } else {
        assert (m + b)[1..] == m[1..] + b;
      }
    } else {
      assert a + m + b == b;
      RemoveAbsent(b, x);
    }
  }

  lemma RemoveSorted(s: seq<Key>, x: Key)
    requires Sorted(s)
    ensures Sorted(Remove(s, x))
  {
    if x in s {
      var j :| 0 <= j < |s| && s[j] == x;
      RemoveAtSorted(s, j);
      SortedInfix([], s[..j], s[j + 1..]);
      assert s == s[..j] + [s[j]] + s[j + 1..];
      SortedInfix(s[..j], [s[j]], s[j + 1..]);
      if j > 0 && j + 1 < |s| {
        assert Le(s[j - 1], s[j + 1]);
      }
      SortedConcat(s[..j], s[j + 1..]);
    } else {
      RemoveAbsent(s, x);
    }
  }

  /** Deleting a key right after inserting it gives back the sorted listing. */
  lemma InsertThenRemove(s: seq<Key>, x: Key)
    requires Sorted(s)
    ensures Remove(Insert(s, x), x) == s
  {
    var p := InsertPosition(s, x);
    InsertAt(s, x, p);
    var t := Insert(s, x);
    InsertSorted(s, x);
    assert t[p] == x;
    RemoveAtSorted(t, p);
    assert t[..p] == s[..p] && t[p + 1..] == s[p..];
  }

  /** The number of leading keys that do not sort after `x`. */
  function InsertPosition(s: seq<Key>, x: Key): (p: nat)
    requires Sorted(s)
    ensures p <= |s|
    ensures forall j :: 0 <= j < p ==> !Less(x, s[j])
    ensures forall j :: p <= j < |s| ==> Less(x, s[j])
  {
    if s == [] then 0
    else if Less(x, s[0]) then
      LessThanSorted(s, x);
      0
    else
      SortedSlice(s, 1, |s|);
      1 + InsertPosition(s[1..], x)
  }

  /** A key below the first of a sorted run is below all of it. */
  lemma LessThanSorted(s: seq<Key>, x: Key)
    requires Sorted(s) && s != [] && Less(x, s[0])
    ensures forall j :: 0 <= j < |s| ==> Less(x, s[j])
  {
    forall j | 0 < j < |s| ensures Less(x, s[j]) {
      LeLessTransitive(x, s[0], s[j]);
    }
  }

  // ---------------------------------------------------------------------
  // In-order listing of a node
  // ---------------------------------------------------------------------

  /**
   * The in-order listing of an internal node whose children list `css`
   * and whose separators are `ks`: css[0], ks[0], css[1], ..., ks[n-1], css[n].
   */
  function Flatten(css: seq<seq<Key>>, ks: seq<Key>): seq<Key>
    requires |css| == |ks| + 1
    decreases |ks|
  {
    if |ks| == 0 then css[0]
    else css[0] + [ks[0]] + Flatten(css[1..], ks[1..])
  }

  /** The part of the listing in front of child `i`: up to and including separator `i-1`. */
  function FlattenBefore(css: seq<seq<Key>>, ks: seq<Key>, i: nat): seq<Key>
    requires |css| == |ks| + 1 && i < |css|
  {
    if i == 0 then [] else Flatten(css[..i], ks[..i - 1]) + [ks[i - 1]]
  }

  /** The part of the listing behind child `i`: from separator `i` on. */
  function FlattenAfter(css: seq<seq<Key>>, ks: seq<Key>, i: nat): seq<Key>
    requires |css| == |ks| + 1 && i < |css|
  {
    if i == |ks| then [] else [ks[i]] + Flatten(css[i + 1..], ks[i + 1..])
  }

  /** Splitting the listing at separator `m`. */
  lemma {:induction false} FlattenSplit(css: seq<seq<Key>>, ks: seq<Key>, m: nat)
    requires |css| == |ks| + 1 && m < |ks|
    ensures Flatten(css, ks) == Flatten(css[..m + 1], ks[..m]) + [ks[m]] + Flatten(css[m + 1..], ks[m + 1..])
  {
    if m > 0 {
      FlattenSplit(css[1..], ks[1..], m - 1);
      assert css[1..][..m] == css[1..m + 1] && ks[1..][..m - 1] == ks[1..m];
      assert css[1..][m..] == css[m + 1..] && ks[1..][m..] == ks[m + 1..];
      assert css[..m + 1][1..] == css[1..m + 1] && ks[..m][1..] == ks[1..m];
    } else {
      assert css[..1][0] == css[0];
    }
  }

  /** The listing is what comes before child `i`, child `i`, and what comes after it. */
  lemma {:induction false} FlattenAround(css: seq<seq<Key>>, ks: seq<Key>, i: nat)
    requires |css| == |ks| + 1 && i < |css|
    ensures Flatten(css, ks) == FlattenBefore(css, ks, i) + css[i] + FlattenAfter(css, ks, i)
    decreases i
  {
    if i > 0 {
      var css1, ks1 := css[1..], ks[1..];
      FlattenAround(css1, ks1, i - 1);
      assert css1[i - 1] == css[i];
      FlattenAfterSame(css1, ks1, i - 1, css, ks, i);
      if i > 1 {
        assert css[..i][1..] == css1[..i - 1] && ks[..i - 1][1..] == ks1[..i - 2];
        assert css[..i][0] == css[0] && ks[..i - 1][0] == ks[0] && ks1[i - 2] == ks[i - 1];
      } else {
        assert css[..1][0] == css[0];
      }
    }
  }

  /** Peeling the next child off the part of the listing behind child `i`. */
  lemma FlattenAfterStep(css: seq<seq<Key>>, ks: seq<Key>, i: nat)
    requires |css| == |ks| + 1 && i < |ks|
    ensures FlattenAfter(css, ks, i) == [ks[i]] + css[i + 1] + FlattenAfter(css, ks, i + 1)
  {
    var css1, ks1 := css[i + 1..], ks[i + 1..];
    FlattenAround(css1, ks1, 0);
    assert css1[0] == css[i + 1];
    FlattenAfterSame(css1, ks1, 0, css, ks, i + 1);
  }

  /** Two neighbouring children and the separator between them. */
  lemma FlattenPair(css: seq<seq<Key>>, ks: seq<Key>, i: nat)
    requires |css| == |ks| + 1 && i < |ks|
    ensures Flatten(css, ks)
         == FlattenBefore(css, ks, i) + css[i] + [ks[i]] + css[i + 1] + FlattenAfter(css, ks, i + 1)
  {
    FlattenAround(css, ks, i);
    FlattenAfterStep(css, ks, i);
  }

  /** What lies before child `i` depends only on the children and separators before it. */
  lemma FlattenBeforeSame(css: seq<seq<Key>>, ks: seq<Key>, css': seq<seq<Key>>, ks': seq<Key>, i: nat)
    requires |css| == |ks| + 1 && i < |css| && |css'| == |ks'| + 1 && i < |css'|
    requires css[..i] == css'[..i] && ks[..i] == ks'[..i]
    ensures FlattenBefore(css, ks, i) == FlattenBefore(css', ks', i)
  {
    if i > 0 {
      assert ks[..i - 1] == ks[..i][..i - 1] && ks'[..i - 1] == ks'[..i][..i - 1];
      assert ks[i - 1] == ks[..i][i - 1] && ks'[i - 1] == ks'[..i][i - 1];
    }
  }

  /** What lies after child `i` depends only on the children and separators after it. */
  lemma FlattenAfterSame(css: seq<seq<Key>>, ks: seq<Key>, i: nat, css': seq<seq<Key>>, ks': seq<Key>, i': nat)
    requires |css| == |ks| + 1 && i < |css| && |css'| == |ks'| + 1 && i' < |css'|
    requires css[i + 1..] == css'[i' + 1..] && ks[i..] == ks'[i'..]
    ensures FlattenAfter(css, ks, i) == FlattenAfter(css', ks', i')
  {
    if i < |ks| {
      assert ks[i] == ks[i..][0] && ks'[i'] == ks'[i'..][0];
      assert ks[i + 1..] == ks[i..][1..] && ks'[i' + 1..] == ks'[i'..][1..];
    }
  }

  /** Every separator occurs in the listing, at least as many times as it is a separator. */
  lemma {:induction false} FlattenLength(css: seq<seq<Key>>, ks: seq<Key>)
    requires |css| == |ks| + 1
    ensures |Flatten(css, ks)| >= |ks|
    decreases |ks|
  {
    if |ks| > 0 {
      FlattenLength(css[1..], ks[1..]);
    }
  }

  /** Every separator occurs in the listing. */
  lemma {:induction false} FlattenHasKeys(css: seq<seq<Key>>, ks: seq<Key>, j: nat)
    requires |css| == |ks| + 1 && j < |ks|
    ensures ks[j] in Flatten(css, ks)
    decreases j
  {
    var f := Flatten(css, ks);
    if j == 0 {
      assert f[|css[0]|] == ks[0];
    } else {
      FlattenHasKeys(css[1..], ks[1..], j - 1);
      assert f == (css[0] + [ks[0]]) + Flatten(css[1..], ks[1..]);
    }
  }

  /** The separators of a node with a sorted listing are sorted. */
  lemma {:induction false} FlattenKeysSorted(css: seq<seq<Key>>, ks: seq<Key>)
    requires |css| == |ks| + 1 && Sorted(Flatten(css, ks))
    ensures Sorted(ks)
    decreases |ks|
  {
    if |ks| > 0 {
      var f := Flatten(css, ks);
      var rest := Flatten(css[1..], ks[1..]);
      assert f == css[0] + [ks[0]] + rest;
      SortedInfix(css[0] + [ks[0]], rest, []);
      assert css[0] + [ks[0]] + rest + [] == f;
      FlattenKeysSorted(css[1..], ks[1..]);
      var p := |css[0]|;
      assert f[p] == ks[0];
      forall i, j | 0 <= i < j < |ks| ensures Le(ks[i], ks[j]) {
        if i == 0 {
          FlattenHasKeys(css[1..], ks[1..], j - 1);
          var q :| 0 <= q < |rest| && rest[q] == ks[j];
          assert f[p + 1 + q] == ks[j];
        } else {
          assert ks[1..][i - 1] == ks[i] && ks[1..][j - 1] == ks[j];
        }
      }
    }
  }

  /** Replacing child `j` changes the listing only between its neighbouring separators. */
  lemma FlattenUpdate(css: seq<seq<Key>>, ks: seq<Key>, j: nat, x: seq<Key>)
    requires |css| == |ks| + 1 && j < |css|
    ensures Flatten(css[j := x], ks) == FlattenBefore(css, ks, j) + x + FlattenAfter(css, ks, j)
  {
    var css' := css[j := x];
    FlattenAround(css', ks, j);
    assert css'[..j] == css[..j] && css'[j + 1..] == css[j + 1..];
    FlattenBeforeSame(css', ks, css, ks, j);
    FlattenAfterSame(css', ks, j, css, ks, j);
  }

  /**
   * Cutting child `i` (which lists `a`, `m`, `b`) into a child listing `a`
   * and one listing `b`, with `m` as the new separator between them, keeps
   * the listing.
   */
  lemma FlattenSplitAt(css: seq<seq<Key>>, ks: seq<Key>, i: nat, a: seq<Key>, m: Key, b: seq<Key>)
    requires |css| == |ks| + 1 && i < |css| && css[i] == a + [m] + b
    ensures |css[..i] + [a, b] + css[i + 1..]| == |ks[..i] + [m] + ks[i..]| + 1
    ensures Flatten(css[..i] + [a, b] + css[i + 1..], ks[..i] + [m] + ks[i..]) == Flatten(css, ks)
  {
    var css' := css[..i] + [a, b] + css[i + 1..];
    var ks' := ks[..i] + [m] + ks[i..];
    SplitSlices(css, i, a, b);
    InsertSlices(ks, i, m);
    FlattenPair(css', ks', i);
    FlattenAround(css, ks, i);
    FlattenBeforeSame(css', ks', css, ks, i);
    FlattenAfterSame(css', ks', i + 1, css, ks, i);
    Middle(FlattenBefore(css, ks, i), a, [m], b, FlattenAfter(css, ks, i));
  }

  /** Entry `i` of a sequence replaced by two entries `x` and `y`. */
  lemma SplitSlices<T>(s: seq<T>, i: nat, x: T, y: T)
    requires i < |s|
    ensures var s' := s[..i] + [x, y] + s[i + 1..];
      |s'| == |s| + 1 && s'[..i] == s[..i] && s'[i] == x && s'[i + 1] == y && s'[i + 2..] == s[i + 1..]
  {
  }

  /** Each entry of a sequence whose entry `i` was replaced by `x` and `y`. */
  lemma SplitAt<T>(s: seq<T>, i: nat, x: T, y: T, k: nat)
    requires i < |s| && k <= |s|
    ensures (s[..i] + [x, y] + s[i + 1..])[k] ==
      if k < i then s[k] else if k == i then x else if k == i + 1 then y else s[k - 1]
  {
  }

  /** `x` inserted in front of entry `i` of a sequence. */
  lemma InsertSlices<T>(s: seq<T>, i: nat, x: T)
    requires i <= |s|
    ensures var s' := s[..i] + [x] + s[i..];
      |s'| == |s| + 1 && s'[..i] == s[..i] && s'[i] == x && s'[i + 1..] == s[i..]
  {
  }

  /** Grouping the three middle pieces of five. */
  lemma Middle<T>(p: seq<T>, x: seq<T>, y: seq<T>, z: seq<T>, q: seq<T>)
    ensures p + x + y + z + q == p + (x + y + z) + q
  {
  }

  /**
   * Two neighbouring children and their separator may trade keys across the
   * separator: the listing stays the same as long as those three pieces
   * still read the same in order.
   */
  lemma FlattenRotate(css: seq<seq<Key>>, ks: seq<Key>, j: nat, x: seq<Key>, k: Key, y: seq<Key>)
    requires |css| == |ks| + 1 && j < |ks|
    requires x + [k] + y == css[j] + [ks[j]] + css[j + 1]
    ensures Flatten(css[j := x][j + 1 := y], ks[j := k]) == Flatten(css, ks)
  {
    var before := FlattenBefore(css, ks, j);
    var after := FlattenAfter(css, ks, j + 1);
    assert Flatten(css[j := x][j + 1 := y], ks[j := k]) == before + (x + [k] + y) + after by {
      FlattenPairUpdate(css, ks, j, x, k, y);
    }
    assert Flatten(css, ks) == before + (css[j] + [ks[j]] + css[j + 1]) + after by {
      FlattenPair(css, ks, j);
    }
  }

  /** Replacing two neighbouring children and the separator between them. */
  lemma FlattenPairUpdate(css: seq<seq<Key>>, ks: seq<Key>, j: nat, x: seq<Key>, k: Key, y: seq<Key>)
    requires |css| == |ks| + 1 && j < |ks|
    ensures Flatten(css[j := x][j + 1 := y], ks[j := k])
         == FlattenBefore(css, ks, j) + x + [k] + y + FlattenAfter(css, ks, j + 1)
  {
    var css' := css[j := x][j + 1 := y];
    var ks' := ks[j := k];
    assert css'[j] == x && css'[j + 1] == y && ks'[j] == k;
    assert css'[..j] == css[..j] && ks'[..j] == ks[..j];
    assert css'[j + 2..] == css[j + 2..] && ks'[j + 1..] == ks[j + 1..];
    FlattenPair(css', ks', j);
    FlattenBeforeSame(css', ks', css, ks, j);
    FlattenAfterSame(css', ks', j + 1, css, ks, j + 1);
  }

  /** Two listings joined around one separator. */
  lemma FlattenJoin(css1: seq<seq<Key>>, ks1: seq<Key>, k: Key, css2: seq<seq<Key>>, ks2: seq<Key>)
    requires |css1| == |ks1| + 1 && |css2| == |ks2| + 1
    ensures |css1 + css2| == |ks1 + [k] + ks2| + 1
    ensures Flatten(css1 + css2, ks1 + [k] + ks2) == Flatten(css1, ks1) + [k] + Flatten(css2, ks2)
  {
    var css, ks := css1 + css2, ks1 + [k] + ks2;
    var m := |ks1|;
    FlattenSplit(css, ks, m);
    assert css[..m + 1] == css1 && ks[..m] == ks1 && ks[m] == k;
    assert css[m + 1..] == css2 && ks[m + 1..] == ks2;
  }

  /** Deleting the `p`-th element of the middle part of a sorted listing. */
  lemma RemoveAtSortedPart(a: seq<Key>, m: seq<Key>, b: seq<Key>, p: nat)
    requires Sorted(a + m + b) && p < |m|
    ensures Remove(a + m + b, m[p]) == a + Remove(m, m[p]) + b
    ensures Remove(m, m[p]) == m[..p] + m[p + 1..]
  {
    SortedInfix(a, m, b);
    RemoveAtSorted(m, p);
    SliceAround(a, m, b, p);
    RemoveAtSorted(a + m + b, |a| + p);
    Reassociate(a, m[..p], m[p + 1..], b);
  }

  /** Cutting three pieces put together around the `p`-th element of the middle one. */
  lemma SliceAround<T>(a: seq<T>, m: seq<T>, b: seq<T>, p: nat)
    requires p < |m|
    ensures (a + m + b)[|a| + p] == m[p]
    ensures (a + m + b)[..|a| + p] == a + m[..p]
    ensures (a + m + b)[|a| + p + 1..] == m[p + 1..] + b
  {
  }

  /** Regrouping four pieces around the middle two. */
  lemma Reassociate<T>(a: seq<T>, x: seq<T>, y: seq<T>, b: seq<T>)
    ensures (a + x) + (y + b) == a + (x + y) + b
  {
  }

  /** Deleting a key that stands between two parts of a sorted listing. */
  lemma RemoveSeparator(b: seq<Key>, l: seq<Key>, k: Key, r: seq<Key>, a: seq<Key>)
    requires Sorted(b + l + [k] + r + a)
    ensures Remove(b + l + [k] + r + a, k) == b + l + r + a
  {
    assert b + l + [k] + r + a == (b + l) + [k] + (r + a);
    RemoveAtSortedPart(b + l, [k], r + a, 0);
    assert (b + l) + [] + (r + a) == b + l + r + a;
  }

  /** Deleting the last key of a sorted listing and putting it back gives the listing. */
  lemma RemoveLast(s: seq<Key>)
    requires Sorted(s) && s != []
    ensures Remove(s, Last(s)) + [Last(s)] == s
  {
    RemoveAtSorted(s, |s| - 1);
    assert s[|s| - 1 + 1..] == [];
  }

  /** Deleting the first key of a sorted listing and putting it back gives the listing. */
  lemma RemoveFirst(s: seq<Key>)
    requires Sorted(s) && s != []
    ensures [s[0]] + Remove(s, s[0]) == s
  {
    RemoveAtSorted(s, 0);
  }

  /** Regrouping a key with the part in front of it. */
  lemma RegroupLeft(b: seq<Key>, l: seq<Key>, p: Key, r: seq<Key>, a: seq<Key>)
    ensures b + l + [p] + r + a == b + (l + [p]) + r + a
  {
  }

  /** Regrouping a key with the part behind it. */
  lemma RegroupRight(b: seq<Key>, l: seq<Key>, p: Key, r: seq<Key>, a: seq<Key>)
    ensures b + l + [p] + r + a == b + l + ([p] + r) + a
  {
  }

  // ---------------------------------------------------------------------
  // Node counts
  // ---------------------------------------------------------------------

  function Sum(s: seq<nat>): nat {
    if s == [] then 0 else s[0] + Sum(s[1..])
  }

  lemma {:induction false} SumConcat(a: seq<nat>, b: seq<nat>)
    ensures Sum(a + b) == Sum(a) + Sum(b)
  {
    if a != [] {
      var ab := a + b;
      assert ab != [] && ab[0] == a[0] && ab[1..] == a[1..] + b;
      calc {
        Sum(ab);
        ab[0] + Sum(ab[1..]);
        a[0] + Sum(a[1..] + b);
        { SumConcat(a[1..], b); }
        a[0] + Sum(a[1..]) + Sum(b);
      }
    } else {
      assert a + b == b;
    }
  }

  lemma SumUpdate(s: seq<nat>, j: nat, v: nat)
    requires j < |s|
    ensures Sum(s[j := v]) + s[j] == Sum(s) + v
  {
    assert s == s[..j] + [s[j]] + s[j + 1..];
    assert s[j := v] == s[..j] + [v] + s[j + 1..];
    SumConcat(s[..j] + [s[j]], s[j + 1..]);
    SumConcat(s[..j], [s[j]]);
    SumConcat(s[..j] + [v], s[j + 1..]);
    SumConcat(s[..j], [v]);
  }

  lemma SumSplitAt(s: seq<nat>, i: nat, a: nat, b: nat)
    requires i < |s|
    ensures Sum(s[..i] + [a, b] + s[i + 1..]) + s[i] == Sum(s) + a + b
  {
    SumAround(s, i);
    SumThree(s[..i], [a, b], s[i + 1..]);
    assert Sum([a, b]) == a + b by {
      assert [a, b][1..] == [b] && [b][1..] == [];
    }
  }

  /** The sum is what comes before entry `i`, the entry, and what comes after it. */
  lemma SumAround(s: seq<nat>, i: nat)
    requires i < |s|
    ensures Sum(s) == Sum(s[..i]) + s[i] + Sum(s[i + 1..])
  {
    assert s == s[..i] + [s[i]] + s[i + 1..];
    SumThree(s[..i], [s[i]], s[i + 1..]);
    assert [s[i]][1..] == [];
  }

  /** The sum of three pieces put together. */
  lemma SumThree(a: seq<nat>, m: seq<nat>, b: seq<nat>)
    ensures Sum(a + m + b) == Sum(a) + Sum(m) + Sum(b)
  {
    SumConcat(a + m, b);
    SumConcat(a, m);
  }
}
