/**
 * Ordering by a caller-supplied comparison, as `std::sort` and
 * `std::inplace_merge` do it: a comparison is a strict weak order, a sequence
 * is sorted when no element is less than one before it, and inserting an
 * element places it after every element it is not less than.
 */
module Sorting {

  /** What the standard library asks of a comparison: irreflexive, transitive, and incomparability is transitive. */
  ghost predicate StrictWeakOrder<T(!new)>(lt: (T, T) -> bool) {
    (forall x :: !lt(x, x)) &&
    (forall x, y, z :: lt(x, y) && lt(y, z) ==> lt(x, z)) &&
    (forall x, y, z :: !lt(x, y) && !lt(y, z) ==> !lt(x, z))
  }

  /** No element is less than an element before it. */
  ghost predicate SortedBy<T>(s: seq<T>, lt: (T, T) -> bool) {
    forall i, j :: 0 <= i < j < |s| ==> !lt(s[j], s[i])
  }

  /**
   * Merge `x` into the sorted `s`: walk back from the end past every element
   * greater than `x`. Equal elements stay ahead of `x`, so the merge is stable.
   */
  function Insert<T>(s: seq<T>, x: T, lt: (T, T) -> bool): (r: seq<T>)
    ensures |r| == |s| + 1
    ensures multiset(r) == multiset(s) + multiset{x}
  {
    if |s| == 0 then [x]
    else if lt(x, s[|s| - 1]) then
      assert s == s[..|s| - 1] + [s[|s| - 1]];
      Insert(s[..|s| - 1], x, lt) + [s[|s| - 1]]
    else s + [x]
  }

  /** Where `Insert` places `x`. */
  function InsertPos<T>(s: seq<T>, x: T, lt: (T, T) -> bool): (p: nat)
    ensures p <= |s|
  {
    if |s| == 0 then 0
    else if lt(x, s[|s| - 1]) then InsertPos(s[..|s| - 1], x, lt)
    else |s|
  }

  /** `Insert` puts `x` at `InsertPos` and keeps the rest in order. */
  lemma {:induction false} InsertShape<T>(s: seq<T>, x: T, lt: (T, T) -> bool)
    ensures Insert(s, x, lt) == s[..InsertPos(s, x, lt)] + [x] + s[InsertPos(s, x, lt)..]
  {
    if |s| > 0 && lt(x, s[|s| - 1]) {
      var init := s[..|s| - 1];
      InsertShape(init, x, lt);
      var p := InsertPos(init, x, lt);
      calc {
        Insert(s, x, lt);
        Insert(init, x, lt) + [s[|s| - 1]];
        init[..p] + [x] + init[p..] + [s[|s| - 1]];
        { assert s[..p] == init[..p]; assert s[p..] == init[p..] + [s[|s| - 1]]; }
        s[..p] + [x] + s[p..];
      }
    } else {
      assert s[..|s|] == s;
    }
  }

  /** `x` is less than every element after it, and not less than the one before it. */
  lemma {:induction false} InsertPosBounds<T>(s: seq<T>, x: T, lt: (T, T) -> bool)
    ensures forall k :: InsertPos(s, x, lt) <= k < |s| ==> lt(x, s[k])
    ensures InsertPos(s, x, lt) > 0 ==> !lt(x, s[InsertPos(s, x, lt) - 1])
  {
    if |s| > 0 && lt(x, s[|s| - 1]) {
      var init := s[..|s| - 1];
      InsertPosBounds(init, x, lt);
      var p := InsertPos(init, x, lt);
      forall k | p <= k < |s| ensures lt(x, s[k]) {
        if k < |init| {
          assert s[k] == init[k];
        }
      }
      if p > 0 {
        assert s[p - 1] == init[p - 1];
      }
    }
  }

  /** Inserting into a sorted sequence keeps it sorted. */
  lemma InsertSorted<T(!new)>(s: seq<T>, x: T, lt: (T, T) -> bool)
    requires StrictWeakOrder(lt) && SortedBy(s, lt)
    ensures SortedBy(Insert(s, x, lt), lt)
  {
    InsertShape(s, x, lt);
    InsertPosBounds(s, x, lt);
    var p := InsertPos(s, x, lt);
    var r := Insert(s, x, lt);
    forall i, j | 0 <= i < j < |r| ensures !lt(r[j], r[i]) {
      if j < p {
        assert r[i] == s[i] && r[j] == s[j];
      } else if j == p {
        assert r[i] == s[i] && r[j] == x;
        if i < p - 1 {
          assert !lt(x, s[p - 1]) && !lt(s[p - 1], s[i]);
        }
      } else if i < p {
        assert r[i] == s[i] && r[j] == s[j - 1];
      } else if i == p {
        assert r[i] == x && r[j] == s[j - 1];
        assert lt(x, s[j - 1]);
      } else {
        assert r[i] == s[i - 1] && r[j] == s[j - 1];
      }
    }
  }

  /** Insertion sort: merge the elements one by one into a sorted prefix. */
  function InsertionSort<T>(s: seq<T>, lt: (T, T) -> bool): (r: seq<T>)
    ensures multiset(r) == multiset(s)
  {
    if |s| == 0 then []
    else
      assert s == s[..|s| - 1] + [s[|s| - 1]];
      Insert(InsertionSort(s[..|s| - 1], lt), s[|s| - 1], lt)
  }

  lemma {:induction false} InsertionSortSorted<T(!new)>(s: seq<T>, lt: (T, T) -> bool)
    requires StrictWeakOrder(lt)
    ensures SortedBy(InsertionSort(s, lt), lt)
  {
    if |s| > 0 {
      InsertionSortSorted(s[..|s| - 1], lt);
      InsertSorted(InsertionSort(s[..|s| - 1], lt), s[|s| - 1], lt);
    }
  }

  /** Integers ordered by `<`. */
  function IntLess(x: int, y: int): bool { x < y }

  lemma IntLessIsWeakOrder()
    ensures StrictWeakOrder(IntLess)
  {
  }
}
