/**
 * Minimum bounding rectangles of the R-tree (`Rtree::Mbr<D>`).
 *
 * A rectangle holds a bottom corner `lo` and a top corner `hi`, one coordinate
 * per dimension. Every operation of the source folds over the D dimensions; here
 * each fold is a recursive function over the number of dimensions seen so far.
 * Coordinates, volumes and distances are integers.
 */
module Mbrs {

  datatype Mbr = Mbr(lo: seq<int>, hi: seq<int>) {
    /** The rectangle has `d` dimensions. */
    predicate HasDim(d: nat) {
      |lo| == d && |hi| == d
    }

    /** No extent is negative. */
    predicate Proper() {
      |lo| == |hi| && forall i :: 0 <= i < |lo| ==> lo[i] <= hi[i]
    }
  }

  /** Both rectangles have the same number of dimensions (the template parameter D). */
  predicate SameDim(a: Mbr, b: Mbr) {
    |a.lo| == |a.hi| == |b.lo| == |b.hi|
  }

  function Min(x: int, y: int): int { if x < y then x else y }
  function Max(x: int, y: int): int { if x < y then y else x }

  /** `a` contains `b` (inclusive on every side). */
  predicate Contains(a: Mbr, b: Mbr)
    requires SameDim(a, b)
  {
    forall i :: 0 <= i < |a.lo| ==> !(a.lo[i] > b.lo[i] || a.hi[i] < b.hi[i])
  }

  /** The rectangles overlap or touch in every dimension. */
  predicate Intersects(a: Mbr, b: Mbr)
    requires SameDim(a, b)
  {
    forall i :: 0 <= i < |a.lo| ==> !(a.hi[i] < b.lo[i] || b.hi[i] < a.lo[i])
  }

  /** `a + b`: the rectangle spanning both. */
  function Union(a: Mbr, b: Mbr): (r: Mbr)
    requires SameDim(a, b)
    ensures SameDim(r, a)
    ensures Contains(r, a) && Contains(r, b)
  {
    Mbr(seq(|a.lo|, i requires 0 <= i < |a.lo| => Min(b.lo[i], a.lo[i])),
        seq(|a.lo|, i requires 0 <= i < |a.lo| => Max(b.hi[i], a.hi[i])))
  }

  /** `a + b` is the smallest rectangle containing both. */
  lemma UnionIsLeast(a: Mbr, b: Mbr, c: Mbr)
    requires SameDim(a, b) && SameDim(a, c)
    requires Contains(c, a) && Contains(c, b)
    ensures Contains(c, Union(a, b))
  {
    var u := Union(a, b);
    forall i | 0 <= i < |a.lo|
      ensures !(c.lo[i] > u.lo[i] || c.hi[i] < u.hi[i])
    {
      assert u.lo[i] == Min(b.lo[i], a.lo[i]);
      assert u.hi[i] == Max(b.hi[i], a.hi[i]);
    }
  }

  /** The union of proper rectangles is proper. */
  lemma UnionProper(a: Mbr, b: Mbr)
    requires SameDim(a, b) && a.Proper() && b.Proper()
    ensures Union(a, b).Proper()
  {
    var u := Union(a, b);
    forall i | 0 <= i < |u.lo| ensures u.lo[i] <= u.hi[i] {
      assert u.lo[i] <= a.lo[i] <= a.hi[i] <= u.hi[i];
    }
  }

  /**
   * The intersection of two rectangles. The source asserts that they
   * intersect before computing it.
   */
  function Intersection(a: Mbr, b: Mbr): (r: Mbr)
    requires SameDim(a, b) && Intersects(a, b)
    ensures SameDim(r, a)
    ensures Contains(a, r) && Contains(b, r)
    ensures a.Proper() && b.Proper() ==> r.Proper()
  {
    var r := Mbr(seq(|a.lo|, i requires 0 <= i < |a.lo| => Max(b.lo[i], a.lo[i])),
                 seq(|a.lo|, i requires 0 <= i < |a.lo| => Min(b.hi[i], a.hi[i])));
    assert forall i :: 0 <= i < |a.lo| ==> r.lo[i] == Max(b.lo[i], a.lo[i]) && r.hi[i] == Min(b.hi[i], a.hi[i]);
    r
  }

  /** Intersection is symmetric, reflexive, and holds for touching corners. */
  lemma IntersectsSymmetric(a: Mbr, b: Mbr)
    requires SameDim(a, b)
    ensures Intersects(a, b) == Intersects(b, a)
  {
  }

  lemma IntersectsReflexive(a: Mbr)
    requires a.Proper()
    ensures Intersects(a, a)
  {
  }

  /** The cases of the unit test: corner contact counts, far boxes do not meet. */
  lemma IntersectsExamples()
    ensures Intersects(Mbr([1, 2], [3, 4]), Mbr([2, 1], [4, 3]))
    ensures Intersects(Mbr([1, 2], [3, 4]), Mbr([3, 4], [5, 5]))
    ensures !Intersects(Mbr([1, 2], [3, 4]), Mbr([10, 10], [11, 11]))
  {
    var a, c := Mbr([1, 2], [3, 4]), Mbr([10, 10], [11, 11]);
    assert a.hi[0] < c.lo[0];
  }

  /** Every point of the intersection lies in both, and conversely. */
  lemma IntersectionIsGreatest(a: Mbr, b: Mbr, c: Mbr)
    requires SameDim(a, b) && SameDim(a, c) && Intersects(a, b)
    ensures Contains(a, c) && Contains(b, c) <==> Contains(Intersection(a, b), c)
  {
    var r := Intersection(a, b);
    if Contains(a, c) && Contains(b, c) {
      forall i | 0 <= i < |a.lo| ensures !(r.lo[i] > c.lo[i] || r.hi[i] < c.hi[i]) {
        assert r.lo[i] == Max(b.lo[i], a.lo[i]) && r.hi[i] == Min(b.hi[i], a.hi[i]);
      }
    }
    if Contains(r, c) {
      forall i | 0 <= i < |a.lo| ensures !(a.lo[i] > c.lo[i] || a.hi[i] < c.hi[i]) && !(b.lo[i] > c.lo[i] || b.hi[i] < c.hi[i]) {
        assert r.lo[i] == Max(b.lo[i], a.lo[i]) && r.hi[i] == Min(b.hi[i], a.hi[i]);
      }
    }
  }

  /** Number of the first `k` dimensions in which `a` cuts `b`. */
  function Complexity(a: Mbr, b: Mbr, k: nat): (r: nat)
    requires SameDim(a, b) && k <= |a.lo|
    ensures r <= k
  {
    if k == 0 then 0
    else Complexity(a, b, k - 1) + (if a.hi[k - 1] < b.hi[k - 1] || a.lo[k - 1] > b.lo[k - 1] then 1 else 0)
  }

  /** `intersectionComplexity`: the number of dimensions in which `a` cuts `b`, in [0, D]. */
  function IntersectionComplexity(a: Mbr, b: Mbr): (r: nat)
    requires SameDim(a, b)
    ensures r <= |a.lo|
  {
    Complexity(a, b, |a.lo|)
  }

  /** The complexity is zero exactly when `a` contains `b`. */
  lemma {:induction false} ComplexityZeroIffContains(a: Mbr, b: Mbr, k: nat)
    requires SameDim(a, b) && k <= |a.lo|
    ensures Complexity(a, b, k) == 0 <==> forall i :: 0 <= i < k ==> !(a.lo[i] > b.lo[i] || a.hi[i] < b.hi[i])
  {
    if k > 0 {
      ComplexityZeroIffContains(a, b, k - 1);
    }
  }

  lemma IntersectionComplexityZeroIffContains(a: Mbr, b: Mbr)
    requires SameDim(a, b)
    ensures IntersectionComplexity(a, b) == 0 <==> Contains(a, b)
  {
    ComplexityZeroIffContains(a, b, |a.lo|);
  }

  /** `distanceAlong(d, b)`: the gap between `a` and `b` along dimension `d`. */
  function DistanceAlong(d: nat, a: Mbr, b: Mbr): (r: int)
    requires SameDim(a, b) && d < |a.lo|
    ensures r >= 0
    ensures r == 0 <==> !(a.hi[d] < b.lo[d] || b.hi[d] < a.lo[d])
  {
    Max(Max(0, a.lo[d] - b.hi[d]), b.lo[d] - a.hi[d])
  }

  /** Sum of the squared gaps over the first `k` dimensions. */
  function SquaredGaps(a: Mbr, b: Mbr, k: nat): (r: int)
    requires SameDim(a, b) && k <= |a.lo|
  {
    if k == 0 then 0
    else SquaredGaps(a, b, k - 1) + DistanceAlong(k - 1, a, b) * DistanceAlong(k - 1, a, b)
  }

  /** `distance2`: the squared distance between two rectangles. */
  function Distance2(a: Mbr, b: Mbr): int
    requires SameDim(a, b)
  {
    SquaredGaps(a, b, |a.lo|)
  }

  lemma {:induction false} SquaredGapsProperties(a: Mbr, b: Mbr, k: nat)
    requires SameDim(a, b) && k <= |a.lo|
    ensures SquaredGaps(a, b, k) >= 0
    ensures SquaredGaps(a, b, k) == SquaredGaps(b, a, k)
    ensures SquaredGaps(a, b, k) == 0 <==> forall i :: 0 <= i < k ==> !(a.hi[i] < b.lo[i] || b.hi[i] < a.lo[i])
  {
    if k > 0 {
      SquaredGapsProperties(a, b, k - 1);
      var g := DistanceAlong(k - 1, a, b);
      assert g == DistanceAlong(k - 1, b, a);
      assert g * g >= 0;
      assert g * g == 0 <==> g == 0;
    }
  }

  /** The squared distance is symmetric, non-negative, and zero exactly when the rectangles intersect. */
  lemma Distance2Properties(a: Mbr, b: Mbr)
    requires SameDim(a, b)
    ensures Distance2(a, b) >= 0
    ensures Distance2(a, b) == Distance2(b, a)
    ensures Distance2(a, b) == 0 <==> Intersects(a, b)
  {
    SquaredGapsProperties(a, b, |a.lo|);
  }

  /** Sum of the extents of the first `k` dimensions. */
  function SumExtents(a: Mbr, k: nat): int
    requires |a.lo| == |a.hi| && k <= |a.lo|
  {
    if k == 0 then 0 else SumExtents(a, k - 1) + (a.hi[k - 1] - a.lo[k - 1])
  }

  /** Product of the extents of the first `k` dimensions. */
  function ProductExtents(a: Mbr, k: nat): int
    requires |a.lo| == |a.hi| && k <= |a.lo|
  {
    if k == 0 then 1 else ProductExtents(a, k - 1) * (a.hi[k - 1] - a.lo[k - 1])
  }

  /** `perimeter` in the sense of Beckmann and Seeger: the sum of the extents. */
  function Perimeter(a: Mbr): int
    requires |a.lo| == |a.hi|
  {
    SumExtents(a, |a.lo|)
  }

  /** `volume`: the product of the extents. */
  function Volume(a: Mbr): int
    requires |a.lo| == |a.hi|
  {
    ProductExtents(a, |a.lo|)
  }

  /** A 2 x 2 square has perimeter 4 and volume 4; a 2 x 3 box has volume 6. */
  lemma MeasureExamples()
    ensures Perimeter(Mbr([0, 0], [2, 2])) == 4
    ensures Volume(Mbr([0, 0], [2, 2])) == 4
    ensures Volume(Mbr([0, 0], [2, 3])) == 6
  {
    var s := Mbr([0, 0], [2, 2]);
    assert SumExtents(s, 1) == 2;
    assert ProductExtents(s, 1) == 2;
    var t := Mbr([0, 0], [2, 3]);
    assert ProductExtents(t, 1) == 2;
  }

  lemma MulMono(x: int, y: int, u: int, v: int)
    requires 0 <= x <= u && 0 <= y <= v
    ensures 0 <= x * y <= u * v
  {
    assert x * y <= u * y;
    assert u * y <= u * v;
  }

  /**
   * Both measures are monotone under containment of proper rectangles, and
   * non-negative on them.
   */
  lemma {:induction false} ExtentsMonotone(a: Mbr, b: Mbr, k: nat)
    requires SameDim(a, b) && a.Proper() && b.Proper() && Contains(a, b) && k <= |a.lo|
    ensures 0 <= SumExtents(b, k) <= SumExtents(a, k)
    ensures 0 <= ProductExtents(b, k) <= ProductExtents(a, k)
  {
    if k > 0 {
      ExtentsMonotone(a, b, k - 1);
      assert 0 <= b.hi[k - 1] - b.lo[k - 1] <= a.hi[k - 1] - a.lo[k - 1];
      MulMono(ProductExtents(b, k - 1), b.hi[k - 1] - b.lo[k - 1], ProductExtents(a, k - 1), a.hi[k - 1] - a.lo[k - 1]);
    }
  }

  /** The two measures `delta`, `overlap` and `deltaOverlap` are applied to. */
  datatype Measure = VolumeMeasure | PerimeterMeasure

  function Measured(m: Measure, a: Mbr): int
    requires |a.lo| == |a.hi|
  {
    match m
    case VolumeMeasure => Volume(a)
    case PerimeterMeasure => Perimeter(a)
  }

  lemma MeasureMonotone(m: Measure, a: Mbr, b: Mbr)
    requires SameDim(a, b) && a.Proper() && b.Proper() && Contains(a, b)
    ensures 0 <= Measured(m, b) <= Measured(m, a)
  {
    ExtentsMonotone(a, b, |a.lo|);
  }

  /** `delta(measure, o)`: how much the measure grows when `o` is added to `a`. */
  function Delta(m: Measure, a: Mbr, o: Mbr): (r: int)
    requires SameDim(a, o)
    ensures Measured(m, Union(a, o)) == Measured(m, a) + r
  {
    Measured(m, Union(a, o)) - Measured(m, a)
  }

  /** Including another rectangle never shrinks a proper rectangle's measure. */
  lemma DeltaNonNegative(m: Measure, a: Mbr, o: Mbr)
    requires SameDim(a, o) && a.Proper() && o.Proper()
    ensures Delta(m, a, o) >= 0
  {
    UnionProper(a, o);
    MeasureMonotone(m, Union(a, o), a);
  }

  /** Including a rectangle that `a` already contains changes nothing. */
  lemma DeltaOfContained(m: Measure, a: Mbr, o: Mbr)
    requires SameDim(a, o) && Contains(a, o)
    ensures Delta(m, a, o) == 0
  {
    UnionOfContained(a, o);
  }

  /** Adding a rectangle that `a` contains leaves `a` as it is. */
  lemma UnionOfContained(a: Mbr, o: Mbr)
    requires SameDim(a, o)
    ensures Contains(a, o) ==> Union(a, o) == a
  {
    if Contains(a, o) {
      var u := Union(a, o);
      assert u.lo == a.lo by {
        forall i | 0 <= i < |a.lo| ensures u.lo[i] == a.lo[i] {
          assert u.lo[i] == Min(o.lo[i], a.lo[i]);
        }
      }
      assert u.hi == a.hi by {
        forall i | 0 <= i < |a.lo| ensures u.hi[i] == a.hi[i] {
          assert u.hi[i] == Max(o.hi[i], a.hi[i]);
        }
      }
    }
  }

  /** `overlap(measure, o)`: the measure of the intersection, or 0 when there is none. */
  function Overlap(m: Measure, a: Mbr, o: Mbr): (r: int)
    requires SameDim(a, o)
    ensures !Intersects(a, o) ==> r == 0
    ensures a.Proper() && o.Proper() ==> 0 <= r <= Measured(m, a) && r <= Measured(m, o)
  {
    if !Intersects(a, o) then
      if a.Proper() && o.Proper() then
        MeasureMonotone(m, a, a);
        MeasureMonotone(m, o, o);
        0
      else 0
    else
      var i := Intersection(a, o);
      if a.Proper() && o.Proper() then
        MeasureMonotone(m, a, i);
        MeasureMonotone(m, o, i);
        Measured(m, i)
      else
        Measured(m, i)
  }

  /**
   * `deltaOverlap(other, omega, measure)`: how much the overlap of `a` with
   * `other` grows when `omega` is added to `a`.
   */
  function DeltaOverlap(a: Mbr, other: Mbr, omega: Mbr, m: Measure): (r: int)
    requires SameDim(a, other) && SameDim(a, omega)
    ensures !Intersects(Union(a, omega), other) ==> r == 0
  {
    var enlarged := Union(a, omega);
    if !Intersects(enlarged, other) then 0
    else
      var overlap := Measured(m, Intersection(enlarged, other));
      if Intersects(a, other) then overlap - Measured(m, Intersection(a, other)) else overlap
  }

  /** For proper rectangles the overlap never shrinks when the rectangle grows. */
  lemma DeltaOverlapNonNegative(a: Mbr, other: Mbr, omega: Mbr, m: Measure)
    requires SameDim(a, other) && SameDim(a, omega)
    requires a.Proper() && other.Proper() && omega.Proper()
    ensures DeltaOverlap(a, other, omega, m) >= 0
  {
    var enlarged := Union(a, omega);
    UnionProper(a, omega);
    if Intersects(enlarged, other) {
      var big := Intersection(enlarged, other);
      if Intersects(a, other) {
        var small := Intersection(a, other);
        IntersectionIsGreatest(enlarged, other, small);
        MeasureMonotone(m, big, small);
      } else {
        MeasureMonotone(m, big, big);
      }
    }
  }

  /**
   * `waste(o)`: volume of the union not covered by either rectangle (counting
   * overlap twice). For proper rectangles it is never below minus the smaller
   * volume, and it is exactly minus `o`'s volume when `a` contains `o`.
   */
  function Waste(a: Mbr, o: Mbr): (r: int)
    requires SameDim(a, o)
    ensures r + Volume(a) + Volume(o) == Volume(Union(a, o))
    ensures a.Proper() && o.Proper() ==> r + Volume(a) >= 0 && r + Volume(o) >= 0
    ensures Contains(a, o) ==> r == -Volume(o)
  {
    UnionOfContained(a, o);
    if a.Proper() && o.Proper() then
      UnionProper(a, o);
      MeasureMonotone(VolumeMeasure, Union(a, o), a);
      MeasureMonotone(VolumeMeasure, Union(a, o), o);
      Volume(Union(a, o)) - (Volume(a) + Volume(o))
    else
      Volume(Union(a, o)) - (Volume(a) + Volume(o))
  }

  /** `a + o` and `o + a` are the same rectangle. */
  lemma UnionSymmetric(a: Mbr, o: Mbr)
    requires SameDim(a, o)
    ensures Union(a, o) == Union(o, a)
  {
    var u, v := Union(a, o), Union(o, a);
    assert u.lo == v.lo by {
      forall i | 0 <= i < |a.lo| ensures u.lo[i] == v.lo[i] {
        assert u.lo[i] == Min(o.lo[i], a.lo[i]) && v.lo[i] == Min(a.lo[i], o.lo[i]);
      }
    }
    assert u.hi == v.hi by {
      forall i | 0 <= i < |a.lo| ensures u.hi[i] == v.hi[i] {
        assert u.hi[i] == Max(o.hi[i], a.hi[i]) && v.hi[i] == Max(a.hi[i], o.hi[i]);
      }
    }
  }

  /** Waste does not depend on the order of the pair, so each unordered pair needs ranking once. */
  lemma WasteSymmetric(a: Mbr, o: Mbr)
    requires SameDim(a, o)
    ensures Waste(a, o) == Waste(o, a)
  {
    UnionSymmetric(a, o);
  }
}
