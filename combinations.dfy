/**
 * `CombinationsView`: every unordered pair of distinct elements of a range,
 * visited in lexicographic order of positions. Iterators are modelled by the
 * positions they point at; the range is the positions `lo .. last - 1`, and
 * `last` is the end position.
 */
module Combinations {

  /** The pairs `(f, s), (f, s + 1), ..., (f, hi - 1)`. */
  function Row(f: int, s: int, hi: int): (r: seq<(int, int)>)
    decreases hi - s
    ensures |r| == if s < hi then hi - s else 0
    ensures forall k :: 0 <= k < |r| ==> r[k] == (f, s + k)
  {
    if s >= hi then [] else [(f, s)] + Row(f, s + 1, hi)
  }

  /** Every pair `(i, j)` with `lo <= i < j < hi`, in lexicographic order. */
  function LexPairs(lo: int, hi: int): seq<(int, int)>
    decreases hi - lo
  {
    if lo >= hi then [] else Row(lo, lo + 1, hi) + LexPairs(lo + 1, hi)
  }

  /** A pair is enumerated exactly when both positions are in range and the first comes first. */
  lemma {:induction false} LexPairsMembership(lo: int, hi: int, i: int, j: int)
    ensures (i, j) in LexPairs(lo, hi) <==> lo <= i < j < hi
    decreases hi - lo
  {
    if lo < hi {
      LexPairsMembership(lo + 1, hi, i, j);
      var row := Row(lo, lo + 1, hi);
      if i == lo && lo < j < hi {
        assert row[j - lo - 1] == (i, j);
      }
    }
  }

  /** Lexicographic order on pairs of positions. */
  predicate PairBefore(p: (int, int), q: (int, int)) {
    p.0 < q.0 || (p.0 == q.0 && p.1 < q.1)
  }

  /** The enumeration is strictly increasing, so no pair is visited twice. */
  lemma {:induction false} LexPairsIncreasing(lo: int, hi: int)
    ensures forall a, b :: 0 <= a < b < |LexPairs(lo, hi)| ==> PairBefore(LexPairs(lo, hi)[a], LexPairs(lo, hi)[b])
    decreases hi - lo
  {
    if lo < hi {
      LexPairsIncreasing(lo + 1, hi);
      var row, rest := Row(lo, lo + 1, hi), LexPairs(lo + 1, hi);
      var all := row + rest;
      forall a, b | 0 <= a < b < |all| ensures PairBefore(all[a], all[b]) {
        if b >= |row| {
          if a < |row| {
            LexPairsMembership(lo + 1, hi, all[b].0, all[b].1);
            assert all[b] in rest;
          } else {
            assert all[a] == rest[a - |row|] && all[b] == rest[b - |row|];
          }
        }
      }
    }
  }

  /** There are n (n - 1) / 2 pairs of n elements. */
  lemma {:induction false} LexPairsCount(lo: int, hi: int)
    requires lo <= hi
    ensures 2 * |LexPairs(lo, hi)| == (hi - lo) * (hi - lo - 1)
    decreases hi - lo
  {
    if lo < hi {
      LexPairsCount(lo + 1, hi);
    }
  }

  class CombinationsIterator {
    /** The view's range: positions `lo .. last - 1`. */
    const lo: int
    const last: int
    /** The pair the iterator points at. */
    var first: int
    var second: int

    /** The pairs the enumeration yields after `(f, s)`. */
    function After(f: int, s: int): seq<(int, int)>
      reads this
    {
      Row(f, s + 1, last) + LexPairs(f + 1, last)
    }

    /** Equal to the view's end iterator, which points at `(last, last)`. */
    predicate AtEnd()
      reads this
    {
      first == last && second == last
    }

    /** Points at a pair of the enumeration. */
    predicate AtPair()
      reads this
    {
      lo <= first < second < last
    }

    /** What `operator++` asserts on entry: neither position has reached the end, and they are in order. */
    predicate CanAdvance()
      reads this
    {
      lo <= first <= second < last
    }

    /**
     * `operator++` as written. When the second position reaches the end, the
     * first one moves on and the second one is placed right after it; only if
     * that lands on the end does the first one advance again.
     */
    method IncrementAsWritten()
      requires CanAdvance()
      modifies this
      ensures old(second) + 1 < last ==> first == old(first) && second == old(second) + 1
      ensures old(second) + 1 == last && old(first) + 2 != last ==> first == old(first) + 1 && second == old(first) + 2
      ensures old(second) + 1 == last && old(first) + 2 == last ==> first == last && second == last
    {
      second := second + 1;
      if second == last {
        first := first + 1;
        second := first;
        second := second + 1;
        if second == last {
          first := first + 1;
        }
      }
    }

    /**
     * `operator++` with the end of the range checked right after the first
     * position moves: the iterator steps to the next pair of the enumeration,
     * or becomes the end iterator when there is none.
     */
    method Increment()
      requires CanAdvance()
      modifies this
      ensures AtEnd() <==> old(After(first, second)) == []
      ensures AtEnd() || AtPair()
      ensures AtPair() ==> [(first, second)] + After(first, second) == old(After(first, second))
    {
      ghost var f, s := first, second;
      second := second + 1;
      if second == last {
        first := first + 1;
        if first == last {
          second := last;
        } else {
          second := first;
          second := second + 1;
          if second == last {
            first := first + 1;
          }
        }
        assert Row(f, s + 1, last) == [];
        if f + 1 < last {
          assert LexPairs(f + 1, last) == Row(f + 1, f + 2, last) + LexPairs(f + 2, last);
        }
      } else {
        assert Row(f, s + 1, last) == [(f, s + 1)] + Row(f, s + 2, last);
      }
    }

    /**
     * `begin()` with the corrected `operator++`: the iterator starts at the
     * first pair, or equals `end()` when the range has fewer than two elements.
     */
    constructor Begin(lo: int, last: int)
      requires lo <= last
      ensures this.lo == lo && this.last == last
      ensures AtEnd() <==> LexPairs(lo, last) == []
      ensures AtEnd() || AtPair()
      ensures AtPair() ==> [(first, second)] + After(first, second) == LexPairs(lo, last)
    {
      this.lo := lo;
      this.last := last;
      first := lo;
      second := lo;
      new;
      if lo != last {
        Increment();
      }
    }

    /** `begin()` as written, using the as-written `operator++`. */
    constructor BeginAsWritten(lo: int, last: int)
      requires lo <= last
      ensures this.lo == lo && this.last == last
      ensures lo == last ==> first == last && second == last
      ensures lo + 1 == last ==> first == last && second == last + 1
      ensures lo + 1 < last ==> first == lo && second == lo + 1
    {
      this.lo := lo;
      this.last := last;
      first := lo;
      second := lo;
      new;
      if lo != last {
        IncrementAsWritten();
      }
    }
  }

  /**
   * Walking from `begin()` to `end()` with the corrected increment yields every
   * pair of positions exactly once, in lexicographic order.
   */
  method Pairs(lo: int, last: int) returns (pairs: seq<(int, int)>)
    requires lo <= last
    ensures pairs == LexPairs(lo, last)
  {
    var it := new CombinationsIterator.Begin(lo, last);
    pairs := [];
    while !it.AtEnd()
      invariant it.lo == lo && it.last == last
      invariant it.AtEnd() || it.AtPair()
      invariant it.AtEnd() ==> pairs == LexPairs(lo, last)
      invariant it.AtPair() ==> pairs + [(it.first, it.second)] + it.After(it.first, it.second) == LexPairs(lo, last)
      decreases if it.AtEnd() then 0 else |it.After(it.first, it.second)| + 1
    {
      pairs := pairs + [(it.first, it.second)];
      ghost var rest := it.After(it.first, it.second);
      it.Increment();
      if it.AtPair() {
        assert pairs + [(it.first, it.second)] + it.After(it.first, it.second) == pairs + rest;
      }
    }
  }

  /**
   * A one-element range has no pairs, yet the as-written `begin()` stops at
   * `(last, last + 1)` instead of at `end()`, which is `(last, last)`.
   */
  method OneElementCounterexample() returns (beginFirst: int, beginSecond: int)
    ensures LexPairs(0, 1) == []
    ensures beginFirst == 1 && beginSecond == 2
  {
    var it := new CombinationsIterator.BeginAsWritten(0, 1);
    beginFirst, beginSecond := it.first, it.second;
    assert LexPairs(1, 1) == [];
  }
}
