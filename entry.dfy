/**
 * R-tree entries (`BaseEntry` / `Entry`): a handle holding the rectangle of a
 * child node together with the node itself. Adding to the entry adds to the
 * node and grows the rectangle. The entries stored inside a node are copies,
 * modelled as `Child` values; `link` stands for the id-or-node union.
 */
module Entries {
  import opened Wrappers
  import opened Mbrs
  import opened BenchNodes

  /** An entry as it is stored inside a node. */
  datatype Child = Child(link: int, mbr: Mbr)

  /** Every rectangle has `dim` dimensions. */
  predicate AllHaveDim(ms: seq<Mbr>, dim: nat) {
    forall i :: 0 <= i < |ms| ==> ms[i].HasDim(dim)
  }

  /** The rectangle a child carries. */
  function ChildRect(c: Child): Mbr { c.mbr }

  /** The rectangles of a sequence of children of any kind, each read by `rect`. */
  function RectsOf<C>(cs: seq<C>, rect: C -> Mbr): (ms: seq<Mbr>)
    ensures |ms| == |cs| && forall i :: 0 <= i < |cs| ==> ms[i] == rect(cs[i])
  {
    if |cs| == 0 then [] else RectsOf(cs[..|cs| - 1], rect) + [rect(cs[|cs| - 1])]
  }

  /** `m0 + m1 + ... `: the union of a non-empty sequence of rectangles, folded from the left. */
  function UnionAll(ms: seq<Mbr>): (r: Mbr)
    requires |ms| > 0 && AllHaveDim(ms, |ms[0].lo|)
    ensures r.HasDim(|ms[0].lo|)
  {
    if |ms| == 1 then ms[0] else Union(UnionAll(ms[..|ms| - 1]), ms[|ms| - 1])
  }

  /** The union contains every rectangle of the sequence. */
  lemma {:induction false} UnionAllContains(ms: seq<Mbr>, k: nat)
    requires |ms| > 0 && AllHaveDim(ms, |ms[0].lo|) && k < |ms|
    ensures Contains(UnionAll(ms), ms[k])
  {
    if |ms| > 1 {
      var init := ms[..|ms| - 1];
      if k < |ms| - 1 {
        UnionAllContains(init, k);
        ContainsTransitive(Union(UnionAll(init), ms[|ms| - 1]), UnionAll(init), ms[k]);
      }
    } else {
      ContainsReflexive(ms[0]);
    }
  }

  /** Any rectangle containing every rectangle of the sequence contains their union. */
  lemma {:induction false} UnionAllLeast(ms: seq<Mbr>, c: Mbr)
    requires |ms| > 0 && AllHaveDim(ms, |ms[0].lo|) && c.HasDim(|ms[0].lo|)
    requires forall k :: 0 <= k < |ms| ==> Contains(c, ms[k])
    ensures Contains(c, UnionAll(ms))
  {
    if |ms| > 1 {
      UnionAllLeast(ms[..|ms| - 1], c);
      UnionIsLeast(UnionAll(ms[..|ms| - 1]), ms[|ms| - 1], c);
    }
  }

  lemma ContainsReflexive(a: Mbr)
    requires a.HasDim(|a.lo|)
    ensures Contains(a, a)
  {
  }

  lemma ContainsTransitive(a: Mbr, b: Mbr, c: Mbr)
    requires SameDim(a, b) && SameDim(b, c)
    requires Contains(a, b) && Contains(b, c)
    ensures Contains(a, c)
  {
    forall i | 0 <= i < |a.lo| ensures !(a.lo[i] > c.lo[i] || a.hi[i] < c.hi[i]) {
      assert !(a.lo[i] > b.lo[i] || a.hi[i] < b.hi[i]);
      assert !(b.lo[i] > c.lo[i] || b.hi[i] < c.hi[i]);
    }
  }

  /** A rectangle united with itself is itself. */
  lemma UnionIdempotent(a: Mbr)
    requires a.HasDim(|a.lo|)
    ensures Union(a, a) == a
  {
    var u := Union(a, a);
    assert forall i :: 0 <= i < |a.lo| ==> u.lo[i] == a.lo[i] && u.hi[i] == a.hi[i];
  }

  /** Growing a union by the next rectangle extends the fold by one. */
  lemma UnionAllSnoc(ms: seq<Mbr>, m: Mbr)
    requires |ms| > 0 && AllHaveDim(ms, |ms[0].lo|) && m.HasDim(|ms[0].lo|)
    ensures AllHaveDim(ms + [m], |ms[0].lo|)
    ensures UnionAll(ms + [m]) == Union(UnionAll(ms), m)
  {
    assert (ms + [m])[..|ms|] == ms;
  }

  /** The union over the first `k` children's rectangles; the first child's rectangle while `k` is 0. */
  function UnionUpTo(cs: seq<Child>, k: nat, dim: nat): (r: Mbr)
    requires 0 < |cs| && k <= |cs| && forall j :: 0 <= j < |cs| ==> cs[j].mbr.HasDim(dim)
    ensures r.HasDim(dim)
  {
    if k == 0 then cs[0].mbr
    else
      var ms := RectsOf(cs[..k], ChildRect);
      assert ms[0] == cs[0].mbr && cs[0].mbr.HasDim(dim);
      assert AllHaveDim(ms, dim);
      UnionAll(ms)
  }

  /** One more child grows the union by its rectangle. */
  lemma PrefixUnion(cs: seq<Child>, k: nat, dim: nat)
    requires k < |cs| && forall j :: 0 <= j < |cs| ==> cs[j].mbr.HasDim(dim)
    ensures UnionUpTo(cs, k + 1, dim) == Union(UnionUpTo(cs, k, dim), cs[k].mbr)
  {
    assert cs[..k + 1] == cs[..k] + [cs[k]];
    assert RectsOf(cs[..k + 1], ChildRect) == RectsOf(cs[..k], ChildRect) + [cs[k].mbr];
    if k > 0 {
      UnionAllSnoc(RectsOf(cs[..k], ChildRect), cs[k].mbr);
    } else {
      UnionIdempotent(cs[0].mbr);
    }
  }

  /** Sum of the volumes of the intersections of `a` with each rectangle. */
  function OverlapSum(a: Mbr, others: seq<Child>): int
    requires forall k :: 0 <= k < |others| ==> SameDim(a, others[k].mbr) && Intersects(a, others[k].mbr)
  {
    if |others| == 0 then 0
    else OverlapSum(a, others[..|others| - 1]) + Volume(Intersection(a, others[|others| - 1].mbr))
  }

  /**
   * The R* overlap is the overlap measure summed over the others: for proper
   * rectangles it lies between 0 and the entry's volume times their number.
   */
  lemma {:induction false} OverlapSumBounds(a: Mbr, others: seq<Child>)
    requires forall k :: 0 <= k < |others| ==> SameDim(a, others[k].mbr) && Intersects(a, others[k].mbr)
    requires a.Proper() && forall k :: 0 <= k < |others| ==> others[k].mbr.Proper()
    ensures 0 <= OverlapSum(a, others) <= |others| * Volume(a)
  {
    if |others| > 0 {
      var init, last := others[..|others| - 1], others[|others| - 1];
      OverlapSumBounds(a, init);
      assert Overlap(VolumeMeasure, a, last.mbr) == Volume(Intersection(a, last.mbr));
      assert |others| * Volume(a) == |init| * Volume(a) + Volume(a);
    }
  }

  class Entry {
    /** The dimension D. */
    const dim: nat
    /** The child node. */
    const node: Node<Child>
    /** The rectangle kept for the node. */
    var mbr: Mbr

    ghost predicate Valid()
      reads this, node, node.entries
    {
      node.Valid() && node.capacity >= 1 && mbr.HasDim(dim) &&
      forall i :: 0 <= i < node.nEntries ==> node.entries[i].mbr.HasDim(dim)
    }

    /** The children's rectangles. */
    function ChildRects(): seq<Mbr>
      reads this, node, node.entries
      requires Valid()
    {
      RectsOf(node.Contents(), ChildRect)
    }

    /** `BaseEntry(node, mbr)`. */
    constructor(dim: nat, node: Node<Child>, mbr: Mbr)
      requires node.Valid() && node.capacity >= 1 && mbr.HasDim(dim)
      requires forall i :: 0 <= i < node.nEntries ==> node.entries[i].mbr.HasDim(dim)
      ensures Valid() && this.dim == dim && this.node == node && this.mbr == mbr
    {
      this.dim := dim;
      this.node := node;
      this.mbr := mbr;
    }

    /**
     * `add(entry)`: the child goes into the node and the rectangle grows to
     * cover it; a full node throws before anything changes.
     */
    method Add(e: Child) returns (r: Result<()>)
      requires Valid() && e.mbr.HasDim(dim)
      modifies this, node, node.entries
      ensures Valid()
      ensures old(node.nEntries) < node.capacity ==>
        r.Success? && node.Contents() == old(node.Contents()) + [e] && mbr == Union(old(mbr), e.mbr)
      ensures old(node.nEntries) >= node.capacity ==>
        r == Failure(OutOfRange) && mbr == old(mbr) && node.Contents() == old(node.Contents())
    {
      r := node.Add(e);
      if r.Success? {
        mbr := Union(mbr, e.mbr);
        assert node.entries[node.nEntries - 1] == e;
      }
    }

    /**
     * `assign(start, end)`: an empty range throws `logic_error`. Otherwise the
     * node is emptied and refilled from the range and the rectangle becomes the
     * union of the children; a range longer than the capacity throws
     * `out_of_range` once the node is full.
     */
    method Assign(range: seq<Child>) returns (r: Result<()>)
      requires Valid() && forall k :: 0 <= k < |range| ==> range[k].mbr.HasDim(dim)
      modifies this, node, node.entries
      ensures Valid()
      ensures |range| == 0 ==> r == Failure(LogicError) && mbr == old(mbr) && node.Contents() == old(node.Contents())
      ensures 0 < |range| <= node.capacity ==>
        r.Success? && node.Contents() == range && mbr == UnionAll(RectsOf(range, ChildRect))
      ensures |range| > node.capacity ==>
        r == Failure(OutOfRange) && node.Contents() == range[..node.capacity] &&
        mbr == UnionAll(RectsOf(range[..node.capacity], ChildRect))
    {
      if |range| == 0 {
        return Failure(LogicError);
      }
      r := Refill(range);
    }

    /** The non-empty case of `assign`: the node is emptied and the range added one child at a time. */
    method Refill(range: seq<Child>) returns (r: Result<()>)
      requires Valid() && |range| > 0 && forall k :: 0 <= k < |range| ==> range[k].mbr.HasDim(dim)
      modifies this, node, node.entries
      ensures Valid()
      ensures |range| <= node.capacity ==>
        r.Success? && node.Contents() == range && mbr == UnionAll(RectsOf(range, ChildRect))
      ensures |range| > node.capacity ==>
        r == Failure(OutOfRange) && node.Contents() == range[..node.capacity] &&
        mbr == UnionAll(RectsOf(range[..node.capacity], ChildRect))
    {
      mbr := range[0].mbr;
      node.nEntries := 0;
      var k := 0;
      r := Success(());
      while k < |range|
        invariant k <= |range| && k <= node.capacity && r.Success?
        invariant Valid() && node.nEntries == k && node.Contents() == range[..k]
        invariant mbr == UnionUpTo(range, k, dim)
        decreases |range| - k
      {
        r := Add(range[k]);
        if r.Failure? {
          return;
        }
        PrefixUnion(range, k, dim);
        assert range[..k + 1] == range[..k] + [range[k]];
        k := k + 1;
      }
      assert range[..k] == range;
    }

    /** `recalculateMbr()`: the rectangle becomes the union of the children's rectangles. */
    method RecalculateMbr()
      requires Valid() && node.nEntries > 0
      modifies this
      ensures Valid()
      ensures mbr == UnionAll(ChildRects())
    {
      var children := node.Contents();
      mbr := children[0].mbr;
      for k := 0 to |children|
        invariant Valid() && mbr == UnionUpTo(children, k, dim)
      {
        PrefixUnion(children, k, dim);
        mbr := Union(mbr, children[k].mbr);
      }
      assert children[..|children|] == children;
    }

    /**
     * `overlap(first, last)`: the volumes of the intersections of this
     * rectangle with each other entry's, added up. The intersection asserts
     * that the rectangles meet.
     */
    method Overlap(others: seq<Child>) returns (result: int)
      requires Valid()
      requires forall k :: 0 <= k < |others| ==> SameDim(mbr, others[k].mbr) && Intersects(mbr, others[k].mbr)
      ensures result == OverlapSum(mbr, others)
    {
      result := 0;
      for k := 0 to |others|
        invariant result == OverlapSum(mbr, others[..k])
      {
        assert others[..k + 1][..k] == others[..k];
        result := result + Volume(Intersection(mbr, others[k].mbr));
      }
      assert others[..|others|] == others;
    }
  }
}
