/**
 * The R-tree's generic selection helpers (`argmin` and `min_value`): scan a
 * range once, transform each element to a key, and keep the first element
 * whose key is smallest. Keys are compared with a strict order `lt` (the
 * source uses `operator<` of the key type: integers, or tuples of them
 * compared lexicographically).
 */
module Algorithms {

  /** `lt` is a strict total order on keys, as `<` is on integers and on tuples of them. */
  ghost predicate StrictTotalOrder<K(!new)>(lt: (K, K) -> bool) {
    (forall x :: !lt(x, x)) &&
    (forall x, y, z :: lt(x, y) && lt(y, z) ==> lt(x, z)) &&
    (forall x, y :: x != y ==> lt(x, y) || lt(y, x))
  }

  /**
   * Position `i` holds the first smallest key of `s`: every earlier key is
   * strictly larger, and no later key is strictly smaller.
   */
  ghost predicate IsFirstMin<T, K>(s: seq<T>, key: T -> K, lt: (K, K) -> bool, i: nat) {
    i < |s| &&
    (forall j :: 0 <= j < i ==> lt(key(s[i]), key(s[j]))) &&
    (forall j :: i < j < |s| ==> !lt(key(s[j]), key(s[i])))
  }

  /** At most one position is the first minimum. */
  lemma FirstMinUnique<T, K(!new)>(s: seq<T>, key: T -> K, lt: (K, K) -> bool, i: nat, j: nat)
    requires StrictTotalOrder(lt)
    requires IsFirstMin(s, key, lt, i) && j < |s|
    ensures IsFirstMin(s, key, lt, j) <==> i == j
  {
    if i < j {
      assert !lt(key(s[j]), key(s[i]));
    } else if j < i {
      assert lt(key(s[i]), key(s[j]));
    }
  }

  /**
   * `argmin(start, end, transform)`: the position of the first element with the
   * smallest key, or `|s|` (the end iterator) for an empty range.
   */
  method Argmin<T, K(!new, ==)>(s: seq<T>, key: T -> K, lt: (K, K) -> bool) returns (i: nat)
    requires StrictTotalOrder(lt)
    ensures i <= |s|
    ensures i == |s| <==> |s| == 0
    ensures i < |s| ==> IsFirstMin(s, key, lt, i)
  {
    if |s| == 0 {
      return |s|;
    }
    var min := key(s[0]);
    i := 0;
    var k := 1;
    while k < |s|
      invariant 1 <= k <= |s| && i < k
      invariant min == key(s[i])
      invariant forall j :: 0 <= j < i ==> lt(min, key(s[j]))
      invariant forall j :: i < j < k ==> !lt(key(s[j]), min)
    {
      var transformed := key(s[k]);
      if lt(transformed, min) {
        forall j | 0 <= j < k && j != i
          ensures lt(transformed, key(s[j]))
        {
          if j > i {
            if key(s[j]) != min {
              assert lt(min, key(s[j]));
            }
          }
        }
        min := transformed;
        i := k;
      }
      k := k + 1;
    }
  }

  /** `min_value(start, end, transform)`: the smallest key of a non-empty range. */
  method MinValue<T, K(!new, ==)>(s: seq<T>, key: T -> K, lt: (K, K) -> bool) returns (min: K)
    requires StrictTotalOrder(lt)
    requires |s| > 0
    ensures exists i :: 0 <= i < |s| && min == key(s[i])
    ensures forall j :: 0 <= j < |s| ==> !lt(key(s[j]), min)
  {
    min := key(s[0]);
    var k := 1;
    while k < |s|
      invariant 1 <= k <= |s|
      invariant exists i :: 0 <= i < k && min == key(s[i])
      invariant forall j :: 0 <= j < k ==> !lt(key(s[j]), min)
    {
      var transformed := key(s[k]);
      if lt(transformed, min) {
        min := transformed;
      }
      k := k + 1;
    }
  }

  /** Integers ordered by `<`. */
  function IntLess(x: int, y: int): bool { x < y }

  /** Pairs of integers ordered lexicographically, as `std::tuple` compares them. */
  function PairLess(x: (int, int), y: (int, int)): bool {
    x.0 < y.0 || (x.0 == y.0 && x.1 < y.1)
  }

  lemma IntLessIsOrder()
    ensures StrictTotalOrder(IntLess)
  {
  }

  lemma PairLessIsOrder()
    ensures StrictTotalOrder(PairLess)
  {
  }
}
