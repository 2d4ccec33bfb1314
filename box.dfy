/**
 * The benchmark's axis aligned box (`Box`), used for queries and objects
 * before they reach an index. A box is two corner points; `include` grows it
 * in place.
 */
module Boxes {
  import opened Wrappers
  import Mbrs

  class Box {
    /** The lower and the upper corner. */
    var lo: seq<int>
    var hi: seq<int>

    /** The corners as a rectangle value. */
    function Bounds(): Mbrs.Mbr
      reads this
    {
      Mbrs.Mbr(lo, hi)
    }

    function Dim(): nat
      reads this
    {
      |lo|
    }

    /** Both corners have the same dimension and the lower one is below the upper one. */
    ghost predicate Valid()
      reads this
    {
      Bounds().Proper()
    }

    /** `Box(dimension)`: the degenerate box at the origin. */
    constructor Empty(d: nat)
      ensures Valid() && Dim() == d
      ensures forall i :: 0 <= i < d ==> lo[i] == 0 && hi[i] == 0
    {
      lo := seq(d, _ => 0);
      hi := seq(d, _ => 0);
    }

    /**
     * `Box(a, b)`: the box spanned by two points, whatever their order. The
     * source throws a logic_error when the dimensions differ.
     */
    static method New(a: seq<int>, b: seq<int>) returns (r: Result<Box>)
      ensures r.Failure? <==> |a| != |b|
      ensures r.Failure? ==> r.error == LogicError
      ensures r.Success? ==> fresh(r.value) && r.value.Valid() && r.value.Dim() == |a|
      ensures r.Success? ==> forall i :: 0 <= i < |a| ==>
                r.value.lo[i] == Mbrs.Min(a[i], b[i]) && r.value.hi[i] == Mbrs.Max(a[i], b[i])
    {
      if |a| != |b| {
        return Failure(LogicError);
      }
      var box := new Box.Empty(|a|);
      var i := 0;
      while i < |a|
        invariant 0 <= i <= |a|
        invariant |box.lo| == |box.hi| == |a|
        invariant forall j :: 0 <= j < i ==> box.lo[j] == Mbrs.Min(a[j], b[j]) && box.hi[j] == Mbrs.Max(a[j], b[j])
      {
        box.lo := box.lo[i := Mbrs.Min(a[i], b[i])];
        box.hi := box.hi[i := Mbrs.Max(a[i], b[i])];
        i := i + 1;
      }
      return Success(box);
    }

    /** `contains(point)`: inclusive containment; invalid_argument when the dimensions differ. */
    method Contains(point: seq<int>) returns (r: Result<bool>)
      requires Valid()
      ensures r.Failure? <==> |point| != Dim()
      ensures r.Failure? ==> r.error == InvalidArgument
      ensures r.Success? ==> (r.value <==> forall i :: 0 <= i < |point| ==> lo[i] <= point[i] <= hi[i])
    {
      if Dim() != |point| {
        return Failure(InvalidArgument);
      }
      var within := true;
      for i := 0 to |point|
        invariant within <==> forall j :: 0 <= j < i ==> lo[j] <= point[j] <= hi[j]
      {
        within := within && lo[i] <= point[i] && point[i] <= hi[i];
      }
      return Success(within);
    }

    /** `intersects(other)`: the boxes share at least a point; invalid_argument when the dimensions differ. */
    method Intersects(other: Box) returns (r: Result<bool>)
      requires Valid() && other.Valid()
      ensures r.Failure? <==> other.Dim() != Dim()
      ensures r.Failure? ==> r.error == InvalidArgument
      ensures r.Success? ==> r.value == Mbrs.Intersects(Bounds(), other.Bounds())
    {
      if Dim() != other.Dim() {
        return Failure(InvalidArgument);
      }
      for i := 0 to other.Dim()
        invariant forall j :: 0 <= j < i ==> !(hi[j] < other.lo[j] || other.hi[j] < lo[j])
      {
        if hi[i] < other.lo[i] || other.hi[i] < lo[i] {
          return Success(false);
        }
      }
      return Success(true);
    }

    /**
     * `getVolume` as written: the running product starts at 0, so every box,
     * whatever its extents, reports volume 0.
     */
    method GetVolumeAsWritten() returns (v: int)
      requires Valid()
      ensures v == 0
    {
      v := 0;
      for i := 0 to Dim()
        invariant v == 0
      {
        v := v * (hi[i] - lo[i]);
      }
    }

    /** `getVolume` with the product started at 1: the product of the extents. */
    method GetVolume() returns (v: int)
      requires Valid()
      ensures v == Mbrs.Volume(Bounds())
      ensures v >= 0
    {
      v := 1;
      for i := 0 to Dim()
        invariant v == Mbrs.ProductExtents(Bounds(), i)
      {
        v := v * (hi[i] - lo[i]);
      }
      Mbrs.MeasureMonotone(Mbrs.VolumeMeasure, Bounds(), Bounds());
    }

    /**
     * `include(other)`: grow this box to the smallest box covering both. The
     * source walks this box's dimensions and reads the other's, so the other
     * box needs at least as many.
     */
    method Include(other: Box)
      requires Valid() && other.Valid() && other.Dim() >= Dim()
      modifies this
      ensures Valid() && Dim() == old(Dim())
      ensures forall i :: 0 <= i < Dim() ==>
                lo[i] == Mbrs.Min(old(lo[i]), old(other.lo[i])) && hi[i] == Mbrs.Max(old(hi[i]), old(other.hi[i]))
      ensures other.Dim() == Dim() ==> Bounds() == Mbrs.Union(old(Bounds()), old(other.Bounds()))
    {
      ghost var lo0, hi0, olo, ohi := lo, hi, other.lo, other.hi;
      var i := 0;
      while i < Dim()
        invariant 0 <= i <= Dim() == |lo0|
        invariant |lo| == |hi| == |lo0|
        invariant other != this ==> other.lo == olo && other.hi == ohi
        invariant forall j :: 0 <= j < i ==> lo[j] == Mbrs.Min(lo0[j], olo[j]) && hi[j] == Mbrs.Max(hi0[j], ohi[j])
        invariant forall j :: i <= j < |lo| ==> lo[j] == lo0[j] && hi[j] == hi0[j]
      {
        lo := lo[i := Mbrs.Min(lo[i], other.lo[i])];
        hi := hi[i := Mbrs.Max(hi[i], other.hi[i])];
        i := i + 1;
      }
      assert forall j :: 0 <= j < |lo| ==> lo[j] <= lo0[j] <= hi0[j] <= hi[j];
      if other.Dim() == Dim() {
        assert lo == Mbrs.Union(Mbrs.Mbr(lo0, hi0), Mbrs.Mbr(olo, ohi)).lo;
        assert hi == Mbrs.Union(Mbrs.Mbr(lo0, hi0), Mbrs.Mbr(olo, ohi)).hi;
      }
    }
  }

  /** The box (0,0)-(2,3) has volume 6, but the as-written `getVolume` reports 0 for it. */
  method VolumeCounterexample() returns (written: int, intended: int)
    ensures written == 0 && intended == 6
  {
    var r := Box.New([0, 0], [2, 3]);
    var box := r.value;
    assert box.lo == [0, 0] && box.hi == [2, 3];
    written := box.GetVolumeAsWritten();
    intended := box.GetVolume();
    Mbrs.MeasureExamples();
  }
}
