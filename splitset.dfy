/**
 * `SplitSet`: the candidate splits of an overflowing node considered by the
 * RR*-tree. With n entries and at least m entries per side there are
 * k = n - 2m + 1 split points per ordering, two orderings (by top then bottom
 * coordinate, or by bottom then top) per dimension, and 2 D k candidates in
 * all. An iterator walks the candidates by number and re-sorts its own copy of
 * the entries whenever the dimension or the ordering changes. Entries are
 * represented by their rectangles.
 */
module SplitSets {
  import opened Mbrs
  import opened Sorting
  import opened Arithmetic

  /** Split points per ordering. */
  function PointsPerOrder(n: nat, m: nat): (k: nat)
    requires 2 * m <= n
    ensures k >= 1
  {
    n - 2 * m + 1
  }

  /** `getSplitPoint`: the number of entries on the lower side. */
  function SplitPoint(c: nat, n: nat, m: nat): nat
    requires 2 * m <= n
  {
    m + c % PointsPerOrder(n, m)
  }

  /** `getSortOrder`: 0 sorts by top then bottom coordinate, 1 by bottom then top. */
  function SortOrder(c: nat, n: nat, m: nat): nat
    requires 2 * m <= n
  {
    (c / PointsPerOrder(n, m)) % 2
  }

  /** `getDimension`: the dimension whose coordinates order the entries. */
  function Dimension(c: nat, n: nat, m: nat): nat
    requires 2 * m <= n
  {
    c / (2 * PointsPerOrder(n, m))
  }

  /**
   * Candidate number 2 k d + k s + j decodes to dimension d, sort order s and
   * split point m + j: the numbering enumerates every combination once.
   */
  lemma DecodeEncode(n: nat, m: nat, d: nat, s: nat, j: nat)
    requires 2 * m <= n && s < 2 && j < PointsPerOrder(n, m)
    ensures var k := PointsPerOrder(n, m);
            var c := 2 * k * d + k * s + j;
            Dimension(c, n, m) == d && SortOrder(c, n, m) == s && SplitPoint(c, n, m) == m + j
  {
    var k := PointsPerOrder(n, m);
    var c := 2 * k * d + k * s + j;
    assert k * s + j < 2 * k by {
      assert k * s <= k;
    }
    DivModUnique(c, 2 * k, d, k * s + j);
    DivModUnique(c, k, 2 * d + s, j);
    DivModUnique(2 * d + s, 2, d, s);
  }

  /** Where candidate (d, s, j) stands when the enumeration starts at dimension d0. */
  function Position(k: nat, d0: nat, d: nat, s: nat, j: nat): int {
    2 * k * (d - d0) + k * s + j
  }

  /** The number of candidates from the first one of dimension a to the first one of dimension b. */
  lemma CandidateDistance(k: nat, a: nat, b: nat)
    requires a <= b
    ensures 2 * b * k - 2 * a * k == 2 * k * (b - a)
  {
    assert 2 * b * k == 2 * k * b;
    assert 2 * a * k == 2 * k * a;
  }

  /** Where candidates stand in the enumeration, and which candidate number each is. */
  lemma PositionFacts(k: nat, d0: nat, e: nat, d: nat, s: nat, j: nat)
    requires k >= 1 && d0 <= d < e && s < 2 && j < k
    ensures 0 <= Position(k, d0, d, s, j) < 2 * k * (e - d0)
    ensures 2 * k * d0 + Position(k, d0, d, s, j) == 2 * k * d + k * s + j
  {
    assert k * s <= k * 1 by {
      MulMonotone(k, s, 1);
    }
    MulMonotone(2 * k, d - d0 + 1, e - d0);
    assert 2 * k * (d - d0 + 1) == 2 * k * (d - d0) + 2 * k;
    assert 2 * k * d0 + 2 * k * (d - d0) == 2 * k * d;
  }

  /** Every candidate leaves at least m entries on each side, and both sides non-empty when m >= 1. */
  lemma SplitPointBounds(c: nat, n: nat, m: nat)
    requires 2 * m <= n
    ensures m <= SplitPoint(c, n, m) <= n - m
  {
  }

  /** A coordinate of a rectangle, 0 past its dimension. */
  function Coord(s: seq<int>, d: nat): int {
    if d < |s| then s[d] else 0
  }

  /** The sort key of an entry for dimension `d` and sort order `order`. */
  function SortKey(e: Mbr, d: nat, order: nat): (int, int) {
    if order == 0 then (Coord(e.hi, d), Coord(e.lo, d)) else (Coord(e.lo, d), Coord(e.hi, d))
  }

  /** The comparison `sort` hands to the view: keys compared as tuples. */
  function KeyLess(d: nat, order: nat): (Mbr, Mbr) -> bool {
    (a: Mbr, b: Mbr) =>
      var x, y := SortKey(a, d, order), SortKey(b, d, order);
      x.0 < y.0 || (x.0 == y.0 && x.1 < y.1)
  }

  lemma KeyLessIsWeakOrder(d: nat, order: nat)
    ensures StrictWeakOrder(KeyLess(d, order))
  {
  }

  /** One candidate: the entries in the order the split cuts them, and where it cuts. */
  datatype Split = Split(sort: nat, dimension: nat, splitPoint: nat, entries: seq<Mbr>) {
    /** `getEntries`: the lower and the upper group. */
    function Groups(): (g: (seq<Mbr>, seq<Mbr>))
      requires splitPoint <= |entries|
      ensures g.0 + g.1 == entries && |g.0| == splitPoint
    {
      (entries[..splitPoint], entries[splitPoint..])
    }
  }

  /** `sp` is the split of candidate `c`: its place in the enumeration, and its entries sorted for it. */
  ghost predicate Describes(sp: Split, c: nat, n: nat, m: nat, D: nat, entries: seq<Mbr>)
    requires 2 * m <= n
  {
    sp.dimension == Dimension(c, n, m) && sp.sort == SortOrder(c, n, m) && sp.splitPoint == SplitPoint(c, n, m) &&
    multiset(sp.entries) == multiset(entries) &&
    (sp.dimension < D ==> SortedBy(sp.entries, KeyLess(sp.dimension, sp.sort)))
  }

  /**
   * The candidates from the first of dimension d0 up to the first of dimension
   * e, read by dimension, sort order and split point.
   */
  ghost predicate Enumerates(splits: seq<Split>, n: nat, m: nat, entries: seq<Mbr>, d0: nat, e: nat)
    requires 2 * m <= n
  {
    var k := PointsPerOrder(n, m);
    forall d: nat, s: nat, j: nat :: d0 <= d < e && s < 2 && j < k ==>
      0 <= Position(k, d0, d, s, j) < |splits| &&
      var sp := splits[Position(k, d0, d, s, j)];
      sp.dimension == d && sp.sort == s && sp.splitPoint == m + j &&
      multiset(sp.entries) == multiset(entries) && SortedBy(sp.entries, KeyLess(d, s))
  }

  lemma EnumerationComplete(splits: seq<Split>, n: nat, m: nat, D: nat, entries: seq<Mbr>, d0: nat, e: nat)
    requires 2 * m <= n && d0 <= e <= D
    requires |splits| == 2 * PointsPerOrder(n, m) * (e - d0)
    requires forall i :: 0 <= i < |splits| ==> Describes(splits[i], 2 * d0 * PointsPerOrder(n, m) + i, n, m, D, entries)
    ensures Enumerates(splits, n, m, entries, d0, e)
  {
    var k := PointsPerOrder(n, m);
    forall d: nat, s: nat, j: nat | d0 <= d < e && s < 2 && j < k
      ensures 0 <= Position(k, d0, d, s, j) < |splits|
      ensures var sp := splits[Position(k, d0, d, s, j)];
              sp.dimension == d && sp.sort == s && sp.splitPoint == m + j &&
              multiset(sp.entries) == multiset(entries) && SortedBy(sp.entries, KeyLess(d, s))
    {
      PositionFacts(k, d0, e, d, s, j);
      DecodeEncode(n, m, d, s, j);
      assert 2 * d0 * k == 2 * k * d0;
      assert Describes(splits[Position(k, d0, d, s, j)], 2 * k * d + k * s + j, n, m, D, entries);
    }
  }

  class SplitIterator {
    const n: nat
    const m: nat
    const D: nat
    /** The entries of the set the iterator was created from. */
    ghost const original: seq<Mbr>
    /** The iterator's own copy of the entry view. */
    var view: seq<Mbr>
    var candidate: nat
    var split: Split

    /**
     * The view holds the original entries; unless the candidate is past the
     * last dimension, sorted for the candidate's dimension and sort order; and
     * the current split describes the candidate.
     */
    ghost predicate Valid()
      reads this
    {
      1 <= m && 2 * m <= n && |original| == n &&
      multiset(view) == multiset(original) &&
      (Dimension(candidate, n, m) < D ==>
         SortedBy(view, KeyLess(Dimension(candidate, n, m), SortOrder(candidate, n, m)))) &&
      split == Split(SortOrder(candidate, n, m), Dimension(candidate, n, m), SplitPoint(candidate, n, m), view)
    }

    /** `sort`: order the view for the current candidate; nothing to do past the last dimension. */
    method Sort()
      requires 2 * m <= n
      modifies this
      ensures multiset(view) == multiset(old(view))
      ensures Dimension(candidate, n, m) < D ==>
                SortedBy(view, KeyLess(Dimension(candidate, n, m), SortOrder(candidate, n, m)))
      ensures Dimension(candidate, n, m) >= D ==> view == old(view)
      ensures candidate == old(candidate) && split == old(split)
    {
      var d := Dimension(candidate, n, m);
      if d >= D {
        return;
      }
      var lt := KeyLess(d, SortOrder(candidate, n, m));
      KeyLessIsWeakOrder(d, SortOrder(candidate, n, m));
      InsertionSortSorted(view, lt);
      view := InsertionSort(view, lt);
    }

    /** `SplitIterator(entryView, dimension)`: the first candidate of a dimension. */
    constructor (entries: seq<Mbr>, m: nat, D: nat, dimension: nat)
      requires 1 <= m && 2 * m <= |entries|
      ensures this.n == |entries| && this.m == m && this.D == D && original == entries
      ensures candidate == 2 * dimension * PointsPerOrder(|entries|, m)
      ensures Valid()
    {
      n := |entries|;
      this.m := m;
      this.D := D;
      original := entries;
      view := entries;
      candidate := 2 * dimension * PointsPerOrder(|entries|, m);
      split := Split(0, 0, 0, []);
      new;
      Sort();
      split := Split(SortOrder(candidate, n, m), Dimension(candidate, n, m), SplitPoint(candidate, n, m), view);
    }

    /** `operator++`: the next candidate, re-sorting when its dimension or sort order differs. */
    method Increment()
      requires Valid() && candidate < 2 * D * PointsPerOrder(n, m)
      modifies this
      ensures Valid() && candidate == old(candidate) + 1
    {
      candidate := candidate + 1;
      var sortOrder := SortOrder(candidate, n, m);
      var dimension := Dimension(candidate, n, m);
      if dimension != split.dimension || sortOrder != split.sort {
        Sort();
      }
      split := Split(sortOrder, dimension, SplitPoint(candidate, n, m), view);
    }
  }

  class SplitSet {
    const D: nat
    const m: nat
    /** The entry view. */
    var entries: seq<Mbr>
    /** The dimension splits are restricted to, or D for all of them. */
    var dimension: nat

    /** `SplitSet(first, first2, last, last2)`: the entries of two ranges, unrestricted. */
    constructor (first: seq<Mbr>, second: seq<Mbr>, D: nat, m: nat)
      ensures entries == first + second && dimension == D && this.D == D && this.m == m
    {
      entries := first + second;
      dimension := D;
      this.D := D;
      this.m := m;
    }

    /** `restrictTo(dimension)`: consider only splits across one dimension. */
    method RestrictTo(d: nat)
      requires d < D
      modifies this
      ensures dimension == d && entries == old(entries)
    {
      dimension := d;
    }

    /** The dimension `begin()` starts at. */
    function FirstDimension(): nat
      reads this
    {
      if dimension == D then 0 else dimension
    }

    /** The dimension `end()` stands at. */
    function EndDimension(): nat
      reads this
    {
      if dimension == D then D else dimension + 1
    }

    /**
     * Every split from `begin()` to `end()`, in iteration order: for each
     * dimension considered, both sort orders, and for each the split points
     * m .. n - m; each split's entries are the set's entries sorted for its
     * dimension and sort order.
     */
    method Splits() returns (splits: seq<Split>)
      requires 1 <= m && 2 * m <= |entries| && dimension <= D
      ensures var k := PointsPerOrder(|entries|, m);
              |splits| == 2 * k * (EndDimension() - FirstDimension())
      ensures Enumerates(splits, |entries|, m, entries, FirstDimension(), EndDimension())
    {
      var k := PointsPerOrder(|entries|, m);
      var d0, e := FirstDimension(), EndDimension();
      var it := new SplitIterator(entries, m, D, d0);
      var stop := 2 * e * k;
      var c0 := it.candidate;
      assert c0 <= stop && stop <= 2 * D * k by {
        MulMonotone(2 * k, d0, e);
        MulMonotone(2 * k, e, D);
      }
      splits := [];
      while it.candidate != stop
        invariant it.Valid() && it.n == |entries| && it.m == m && it.D == D && it.original == entries
        invariant c0 <= it.candidate <= stop
        invariant |splits| == it.candidate - c0
        invariant forall i :: 0 <= i < |splits| ==> Describes(splits[i], c0 + i, |entries|, m, D, entries)
        decreases stop - it.candidate
      {
        splits := splits + [it.split];
        it.Increment();
      }
      assert |splits| == 2 * k * (e - d0) by {
        CandidateDistance(k, d0, e);
      }
      EnumerationComplete(splits, |entries|, m, D, entries, d0, e);
    }
  }
}
