/**
 * The element-by-element moves the routines of utils/btree.c make inside
 * a node's fixed-size key and child arrays: opening a slot by shifting up
 * from the back, closing one by shifting down from the front, and copying
 * another node's entries after the live ones. A buffer here is the live
 * part of an array, plus the spare slot at its end while a slot is open.
 */
module Slots {
  /** Filling the open slot of a buffer shifted up from `slot` on inserts there. */
  lemma Fill<T>(s: seq<T>, buf: seq<T>, slot: nat, x: T)
    requires slot <= |s| && |buf| == |s| + 1
    requires buf[..slot] == s[..slot] && buf[slot + 1..] == s[slot..]
    ensures buf[slot := x] == s[..slot] + [x] + s[slot..]
  {
    var r := buf[slot := x];
    assert r == r[..slot] + [r[slot]] + r[slot + 1..];
  }

  /**
   * From the back, each entry from slot `at` on moves one slot up (the
   * first into the spare slot), and `x` is written into slot `at`.
   */
  method OpenSlot<T>(s: seq<T>, at: nat, x: T) returns (r: seq<T>)
    requires at <= |s|
    ensures r == s[..at] + [x] + s[at..]
  {
    r := s + [x];
    var i := |s|;
    while i > at
      invariant at <= i <= |s| && |r| == |s| + 1
      invariant r[..i] == s[..i] && r[i + 1..] == s[i..]
    {
      r := r[i := r[i - 1]];
      i := i - 1;
    }
    Fill(s, r, at, x);
    r := r[at := x];
  }

  /**
   * From the front, each entry after slot `at` moves one slot down over
   * the one before it, and the last slot stops being live.
   */
  method CloseSlot<T>(s: seq<T>, at: nat) returns (r: seq<T>)
    requires at < |s|
    ensures r == s[..at] + s[at + 1..]
  {
    r := s;
    var i := at + 1;
    while i < |s|
      invariant at < i <= |s| && |r| == |s|
      invariant forall k :: 0 <= k < at ==> r[k] == s[k]
      invariant forall k :: at <= k < i - 1 ==> r[k] == s[k + 1]
      invariant forall k :: i <= k < |s| ==> r[k] == s[k]
    {
      r := r[i - 1 := r[i]];
      i := i + 1;
    }
    r := r[..|s| - 1];
    assert r == s[..at] + s[at + 1..];
  }

  /** Each entry of `b` in turn is written into the next slot after those of `a`. */
  method CopyAfter<T>(a: seq<T>, b: seq<T>) returns (r: seq<T>)
    ensures r == a + b
  {
    r := a;
    var i := 0;
    while i < |b|
      invariant 0 <= i <= |b| && r == a + b[..i]
    {
      r := r + [b[i]];
      i := i + 1;
    }
    assert b[..i] == b;
  }
}
