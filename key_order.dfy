/**
 * Keys of the B-tree and the order `strcmp` puts them in.
 *
 * A key is a C string. `strcmp` walks both strings until the first
 * position where they differ (or one of them ends) and answers with the
 * sign of the difference; the terminating NUL is smaller than every other
 * character, so a proper prefix sorts first. Only that sign is ever used.
 */
module KeyOrder {

  /** A C string; the keys C can hold have no NUL inside. */
  type Key = string

  /** The sign of `strcmp(a, b)`: negative, zero or positive. */
  function Strcmp(a: Key, b: Key): (r: int)
    ensures -1 <= r <= 1
    ensures r == 0 <==> a == b
  {
    assert a[0..] == a && b[0..] == b;
    StrcmpFrom(a, b, 0)
  }

  /**
   * The sign `strcmp` answers with once it has walked past the first `i`
   * characters of both strings.
   */
  function StrcmpFrom(a: Key, b: Key, i: nat): (r: int)
    requires i <= |a| && i <= |b|
    ensures -1 <= r <= 1
    ensures r == 0 <==> a[i..] == b[i..]
    decreases |a| - i
  {
    if i == |a| then (if i == |b| then 0 else -1)
    else if i == |b| then 1
    else if a[i] < b[i] then -1
    else if a[i] > b[i] then 1
    else
      var r := StrcmpFrom(a, b, i + 1);
      assert a[i..] == [a[i]] + a[i + 1..] && b[i..] == [b[i]] + b[i + 1..];
      r
  }

  /** `strcmp(a, b) < 0`: `a` sorts strictly before `b`. */
  predicate Less(a: Key, b: Key) {
    Strcmp(a, b) < 0
  }

  /** `strcmp(a, b) <= 0`. */
  predicate Le(a: Key, b: Key) {
    a == b || Less(a, b)
  }

  /** Swapping the arguments of `strcmp` flips the sign of its answer. */
  lemma StrcmpAntisymmetric(a: Key, b: Key)
    ensures Strcmp(b, a) == -Strcmp(a, b)
  {
    StrcmpFromAntisymmetric(a, b, 0);
  }

  lemma {:induction false} StrcmpFromAntisymmetric(a: Key, b: Key, i: nat)
    requires i <= |a| && i <= |b|
    ensures StrcmpFrom(b, a, i) == -StrcmpFrom(a, b, i)
    decreases |a| - i
  {
    if i < |a| && i < |b| && a[i] == b[i] {
      StrcmpFromAntisymmetric(a, b, i + 1);
    }
  }

  /** `strcmp` orders keys transitively. */
  lemma LessTransitive(a: Key, b: Key, c: Key)
    requires Less(a, b) && Less(b, c)
    ensures Less(a, c)
  {
    StrcmpFromTransitive(a, b, c, 0);
  }

  lemma {:induction false} StrcmpFromTransitive(a: Key, b: Key, c: Key, i: nat)
    requires i <= |a| && i <= |b| && i <= |c|
    requires StrcmpFrom(a, b, i) < 0 && StrcmpFrom(b, c, i) < 0
    ensures StrcmpFrom(a, c, i) < 0
    decreases |a| - i
  {
    if i < |a| && i < |b| && i < |c| && a[i] == b[i] && b[i] == c[i] {
      StrcmpFromTransitive(a, b, c, i + 1);
    }
  }

  /** Exactly one of `a < b`, `a == b`, `b < a` holds. */
  lemma LessTrichotomy(a: Key, b: Key)
    ensures Less(a, b) || a == b || Less(b, a)
    ensures !(Less(a, b) && Less(b, a))
    ensures !Less(a, a)
  {
    StrcmpAntisymmetric(a, b);
  }

  /** `!(b < a)` is the same as `a <= b`. */
  lemma NotLessIsLe(a: Key, b: Key)
    ensures !Less(b, a) <==> Le(a, b)
  {
    LessTrichotomy(a, b);
  }

  lemma LeTransitive(a: Key, b: Key, c: Key)
    requires Le(a, b) && Le(b, c)
    ensures Le(a, c)
  {
    if a != b && b != c {
      LessTransitive(a, b, c);
    }
  }

  lemma LeLessTransitive(a: Key, b: Key, c: Key)
    requires (Le(a, b) && Less(b, c)) || (Less(a, b) && Le(b, c))
    ensures Less(a, c)
  {
    if a != b && b != c {
      LessTransitive(a, b, c);
    }
  }

  lemma LeAntisymmetric(a: Key, b: Key)
    requires Le(a, b) && Le(b, a)
    ensures a == b
  {
    LessTrichotomy(a, b);
  }
}
