/**
 * The flat scanning index (`Scanning`, searched by `Sequential`): the ids of
 * the inserted objects in one array and their boxes in another, object `i`'s
 * lower and upper bound in dimension `j` at positions 2(D·i + j) and
 * 2(D·i + j) + 1. A range search scans every object in insertion order.
 *
 * `Sequential` only adds the two searches to `Scanning`; the model puts them
 * on the one class.
 */
module FlatScanning {
  import opened Wrappers
  import opened Arithmetic
  import opened Mbrs

  /** Where the block of object `i` starts: 2·D·i, counted up object by object. */
  function Block(d: nat, i: nat): nat {
    if i == 0 then 0 else Block(d, i - 1) + 2 * d
  }

  lemma {:induction false} BlockIsProduct(d: nat, i: nat)
    ensures Block(d, i) == 2 * (d * i)
  {
    if i > 0 {
      BlockIsProduct(d, i - 1);
      assert d * i == d * (i - 1) + d;
    }
  }

  /** Later objects' blocks start later. */
  lemma {:induction false} BlockMonotone(d: nat, i: nat, n: nat)
    requires i <= n
    ensures Block(d, i) <= Block(d, n)
    decreases n - i
  {
    if i < n {
      BlockMonotone(d, i + 1, n);
    }
  }

  /**
   * Where the bound `b` (0 lower, 1 upper) of object `i` in dimension `j` is
   * stored: 2(D·i + j) + b.
   */
  function Slot(d: nat, i: nat, j: nat, b: nat): nat {
    Block(d, i) + 2 * j + b
  }

  /** The source's index expression is the slot. */
  lemma SlotIsIndex(d: nat, i: nat, j: nat, b: nat)
    ensures Slot(d, i, j, b) == 2 * (d * i + j) + b
  {
    BlockIsProduct(d, i);
  }

  /** Object `i`'s bounds lie in its own block, inside a buffer sized for `n` objects. */
  lemma SlotBound(d: nat, i: nat, j: nat, b: nat, n: nat)
    requires j < d && b < 2 && i < n
    ensures Block(d, i) <= Slot(d, i, j, b) < Block(d, i + 1) <= Block(d, n) == 2 * n * d
  {
    BlockMonotone(d, i + 1, n);
    BlockIsProduct(d, n);
  }

  /** Different (object, dimension, bound) triples are stored at different positions. */
  lemma SlotInjective(d: nat, i: nat, j: nat, b: nat, i': nat, j': nat, b': nat)
    requires j < d && j' < d && b < 2 && b' < 2
    requires Slot(d, i, j, b) == Slot(d, i', j', b')
    ensures i == i' && j == j' && b == b'
  {
    if i < i' {
      SlotBound(d, i, j, b, i');
      BlockMonotone(d, i', i');
    } else if i' < i {
      SlotBound(d, i', j', b', i);
    }
  }

  /** Position `p` of the buffer (0 past its end, where the source never reads). */
  function Read(pos: seq<int>, p: nat): int {
    if p < |pos| then pos[p] else 0
  }

  /** The box of object `i`, read from the positions buffer. */
  function BoxAt(pos: seq<int>, d: nat, i: nat): (m: Mbr)
    ensures m.HasDim(d)
    ensures forall j :: 0 <= j < d ==> m.lo[j] == Read(pos, Slot(d, i, j, 0)) && m.hi[j] == Read(pos, Slot(d, i, j, 1))
  {
    Mbr(seq(d, j requires 0 <= j => Read(pos, Slot(d, i, j, 0))), seq(d, j requires 0 <= j => Read(pos, Slot(d, i, j, 1))))
  }

  /**
   * The objects among the first `n` whose box meets `query`: each at most
   * once, in insertion order, and none left out.
   */
  function Hits(pos: seq<int>, d: nat, query: Mbr, n: nat): (hits: seq<nat>)
    requires query.HasDim(d)
    ensures |hits| <= n
    ensures forall k :: 0 <= k < |hits| ==> hits[k] < n && Intersects(BoxAt(pos, d, hits[k]), query)
    ensures forall k, l :: 0 <= k < l < |hits| ==> hits[k] < hits[l]
    ensures forall i :: 0 <= i < n && Intersects(BoxAt(pos, d, i), query) ==> i in hits
  {
    if n == 0 then []
    else Hits(pos, d, query, n - 1) + (if Intersects(BoxAt(pos, d, n - 1), query) then [n - 1] else [])
  }

  class Scanning {
    const dimension: nat
    /** `ids[i]`: the id of the i-th inserted object. */
    const ids: array<nat>
    /** The bounds of the inserted objects, two coordinates per dimension. */
    const positions: array<int>
    /** `nObjects`: how many objects were inserted. */
    var nObjects: nat

    /** The two buffers are apart and have room for `ids.Length` objects, and no more were inserted. */
    ghost predicate Valid()
      reads this
    {
      positions.Length == 2 * ids.Length * dimension && nObjects <= ids.Length &&
      ids as object != positions as object
    }

    /** The box of the i-th inserted object. */
    function Box(i: nat): (m: Mbr)
      reads this, positions
      requires Valid() && i < nObjects
      ensures m.HasDim(dimension)
    {
      BoxAt(positions[..], dimension, i)
    }

    /** `Scanning(dimension, size)`: empty buffers for `size` objects. */
    constructor (dimension: nat, size: nat)
      ensures Valid() && this.dimension == dimension && ids.Length == size && nObjects == 0
      ensures fresh(ids) && fresh(positions)
    {
      this.dimension := dimension;
      positions := new int[2 * size * dimension];
      ids := new nat[size];
      nObjects := 0;
    }

    /**
     * `insert(object)`: the id goes to position `nObjects` and the box to the
     * object's block of positions; the count goes up by one. The buffers have
     * a fixed length, so there must be room for one more object.
     */
    method Insert(id: nat, lo: seq<int>, hi: seq<int>)
      requires Valid() && nObjects < ids.Length && |lo| == dimension && |hi| == dimension
      modifies this, ids, positions
      ensures Valid() && nObjects == old(nObjects) + 1
      ensures ids[..nObjects] == old(ids[..nObjects]) + [id]
      ensures Box(old(nObjects)) == Mbr(lo, hi)
      ensures forall i :: 0 <= i < old(nObjects) ==> Box(i) == old(Box(i))
    {
      var i := nObjects;
      ids[i] := id;
      ghost var before := positions[..];
      BlockMonotone(dimension, i, ids.Length);
      BlockIsProduct(dimension, ids.Length);
      assert 2 * ids.Length * dimension == 2 * (dimension * ids.Length);
      for j := 0 to dimension
        invariant Block(dimension, i) <= positions.Length && ids[..i + 1] == old(ids[..i]) + [id]
        invariant forall p :: 0 <= p < Block(dimension, i) ==> positions[p] == before[p]
        invariant forall p :: 0 <= p < j ==>
          Read(positions[..], Slot(dimension, i, p, 0)) == lo[p] && Read(positions[..], Slot(dimension, i, p, 1)) == hi[p]
      {
        SlotIsIndex(dimension, i, j, 0);
        SlotIsIndex(dimension, i, j, 1);
        SlotBound(dimension, i, j, 1, ids.Length);
        positions[2 * (dimension * i + j)] := lo[j];
        positions[2 * (dimension * i + j) + 1] := hi[j];
      }
      nObjects := i + 1;
      UnchangedBoxes(before, positions[..], dimension, i);
      assert Box(i).lo == lo && Box(i).hi == hi;
    }

    /**
     * `rangeSearch(box)` of `Sequential`: every inserted object in turn; an
     * object is reported when its box meets the query in every dimension
     * (touching counts), in insertion order.
     */
    method RangeSearch(qlo: seq<int>, qhi: seq<int>) returns (results: seq<nat>)
      requires Valid() && |qlo| == dimension && |qhi| == dimension
      ensures var hits := Hits(positions[..], dimension, Mbr(qlo, qhi), nObjects);
        |results| == |hits| && forall k :: 0 <= k < |hits| ==> results[k] == ids[hits[k]]
    {
      ghost var query := Mbr(qlo, qhi);
      ghost var pos := positions[..];
      results := [];
      for i := 0 to nObjects
        invariant var hits := Hits(pos, dimension, query, i);
          |results| == |hits| && forall k :: 0 <= k < |hits| ==> results[k] == ids[hits[k]]
      {
        var intersects := Meets(i, qlo, qhi);
        if intersects {
          results := results + [ids[i]];
        }
      }
    }

    /** Whether the box of object `i` meets the query box in every dimension, touching included. */
    method Meets(i: nat, qlo: seq<int>, qhi: seq<int>) returns (intersects: bool)
      requires Valid() && i < nObjects && |qlo| == dimension && |qhi| == dimension
      ensures intersects <==> Intersects(Box(i), Mbr(qlo, qhi))
    {
      intersects := true;
      for j := 0 to dimension
        invariant intersects <==> forall p :: 0 <= p < j ==>
          qhi[p] >= Read(positions[..], Slot(dimension, i, p, 0)) && Read(positions[..], Slot(dimension, i, p, 1)) >= qlo[p]
      {
        SlotIsIndex(dimension, i, j, 0);
        SlotBound(dimension, i, j, 1, ids.Length);
        var k := 2 * (dimension * i + j);
        intersects := intersects && (qhi[j] >= positions[k] && positions[k + 1] >= qlo[j]);
      }
    }

    /** `knnSearch(k, point)` of `Sequential`: not implemented, always a logic_error. */
    method KnnSearch(k: nat, point: seq<int>) returns (r: Result<seq<nat>>)
      ensures r.Failure? && r.error == LogicError
    {
      return Failure(LogicError);
    }
  }

  /** Writing only from object `n`'s block on leaves the boxes of the first `n` objects as they were. */
  lemma UnchangedBoxes(before: seq<int>, after: seq<int>, d: nat, n: nat)
    requires |before| == |after| && Block(d, n) <= |before|
    requires forall p :: 0 <= p < Block(d, n) ==> after[p] == before[p]
    ensures forall i :: 0 <= i < n ==> BoxAt(after, d, i) == BoxAt(before, d, i)
  {
    forall i | 0 <= i < n
      ensures BoxAt(after, d, i) == BoxAt(before, d, i)
    {
      forall j | 0 <= j < d
        ensures Read(after, Slot(d, i, j, 0)) == Read(before, Slot(d, i, j, 0))
        ensures Read(after, Slot(d, i, j, 1)) == Read(before, Slot(d, i, j, 1))
      {
        SlotBound(d, i, j, 1, n);
      }
    }
  }
}
