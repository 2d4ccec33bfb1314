/**
 * Entries of the Hilbert R-tree (`HilbertEntry`): an entry that also keeps the
 * largest Hilbert value found below it and keeps its node's children ordered
 * by Hilbert value.
 */
module HilbertEntries {
  import opened Wrappers
  import opened Mbrs
  import opened Sorting
  import opened BenchNodes
  import Entries

  /** A child as stored in a node: the id-or-node link, its rectangle and its Hilbert value. */
  datatype HilbertChild = HilbertChild(link: int, mbr: Mbr, hv: nat)

  /** The comparison handed to `inplace_merge` and `sort`: by Hilbert value only. */
  function HvLess(a: HilbertChild, b: HilbertChild): bool {
    a.hv < b.hv
  }

  lemma HvLessIsWeakOrder()
    ensures StrictWeakOrder(HvLess)
  {
  }

  function MaxOf(x: nat, y: nat): nat { if x < y then y else x }

  /** The largest Hilbert value among the children, 0 when there are none. */
  function MaxHv(cs: seq<HilbertChild>): nat {
    if |cs| == 0 then 0 else MaxOf(MaxHv(cs[..|cs| - 1]), cs[|cs| - 1].hv)
  }

  /** `MaxHv` bounds every child's value and, for a non-empty sequence, is one of them. */
  lemma {:induction false} MaxHvIsMaximum(cs: seq<HilbertChild>)
    ensures forall k :: 0 <= k < |cs| ==> cs[k].hv <= MaxHv(cs)
    ensures |cs| > 0 ==> exists k :: 0 <= k < |cs| && cs[k].hv == MaxHv(cs)
    ensures |cs| == 0 ==> MaxHv(cs) == 0
  {
    if |cs| > 0 {
      var init := cs[..|cs| - 1];
      MaxHvIsMaximum(init);
      if MaxHv(init) > cs[|cs| - 1].hv {
        var k :| 0 <= k < |init| && init[k].hv == MaxHv(init);
        assert cs[k] == init[k];
      } else {
        assert cs[|cs| - 1].hv == MaxHv(cs);
      }
      forall k | 0 <= k < |cs| ensures cs[k].hv <= MaxHv(cs) {
        if k < |init| {
          assert cs[k] == init[k];
        }
      }
    }
  }

  /** The rectangle a child carries. */
  function HilbertRect(c: HilbertChild): Mbr { c.mbr }

  /** The union over the first `k` children's rectangles; the first child's rectangle while `k` is 0. */
  function UnionUpTo(cs: seq<HilbertChild>, k: nat, dim: nat): (r: Mbr)
    requires 0 < |cs| && k <= |cs| && forall j :: 0 <= j < |cs| ==> cs[j].mbr.HasDim(dim)
    ensures r.HasDim(dim)
  {
    if k == 0 then cs[0].mbr else UnionOf(cs[..k], dim)
  }

  /** The union, the maximum and the sorted order over the first k + 1 children, from those over the first k. */
  lemma PrefixStep(cs: seq<HilbertChild>, k: nat, dim: nat)
    requires k < |cs| && forall j :: 0 <= j < |cs| ==> cs[j].mbr.HasDim(dim)
    ensures UnionUpTo(cs, k + 1, dim) == Union(UnionUpTo(cs, k, dim), cs[k].mbr)
    ensures MaxHv(cs[..k + 1]) == MaxOf(MaxHv(cs[..k]), cs[k].hv)
    ensures InsertionSort(cs[..k + 1], HvLess) == Insert(InsertionSort(cs[..k], HvLess), cs[k], HvLess)
  {
    assert cs[..k + 1][..k] == cs[..k];
    assert Entries.RectsOf(cs[..k + 1], HilbertRect) == Entries.RectsOf(cs[..k], HilbertRect) + [cs[k].mbr];
    if k > 0 {
      Entries.UnionAllSnoc(Entries.RectsOf(cs[..k], HilbertRect), cs[k].mbr);
    } else {
      Entries.UnionIdempotent(cs[0].mbr);
    }
  }

  /**
   * The walk-back position is characterised by its two bounds: everything
   * from it on is greater than `x`, and the element before it is not.
   */
  lemma {:induction false} InsertPosUnique(s: seq<HilbertChild>, x: HilbertChild, j: nat)
    requires j <= |s|
    requires forall k :: j <= k < |s| ==> HvLess(x, s[k])
    requires j > 0 ==> !HvLess(x, s[j - 1])
    ensures InsertPos(s, x, HvLess) == j
  {
    if |s| > 0 && j < |s| {
      assert HvLess(x, s[|s| - 1]);
      var init := s[..|s| - 1];
      if j > 0 {
        assert init[j - 1] == s[j - 1];
      }
      InsertPosUnique(init, x, j);
    }
  }

  class HilbertEntry {
    /** The dimension D. */
    const dim: nat
    /** The child node. */
    const node: Node<HilbertChild>
    /** The rectangle kept for the node. */
    var mbr: Mbr
    /** `hilbertValue`: the largest Hilbert value seen below this entry. */
    var hilbertValue: nat

    ghost predicate Valid()
      reads this, node, node.entries
    {
      node.Valid() && node.capacity >= 1 && mbr.HasDim(dim) &&
      forall i :: 0 <= i < node.nEntries ==> node.entries[i].mbr.HasDim(dim)
    }

    /**
     * `HilbertEntry(node, mbr)` as written: `hilbertValue` is never
     * initialised before the loop takes the maximum with it, so whatever the
     * storage held (`initial`) survives when it exceeds every child's value.
     */
    constructor FromNodeAsWritten(dim: nat, node: Node<HilbertChild>, mbr: Mbr, initial: nat)
      requires node.Valid() && node.capacity >= 1 && mbr.HasDim(dim)
      requires forall i :: 0 <= i < node.nEntries ==> node.entries[i].mbr.HasDim(dim)
      ensures Valid() && this.node == node && this.mbr == mbr
      ensures hilbertValue == MaxOf(initial, MaxHv(node.Contents()))
    {
      var v := initial;
      var children := node.Contents();
      for k := 0 to |children|
        invariant v == MaxOf(initial, MaxHv(children[..k]))
      {
        assert children[..k + 1][..k] == children[..k];
        v := MaxOf(v, children[k].hv);
      }
      assert children[..|children|] == children;
      this.dim := dim;
      this.node := node;
      this.mbr := mbr;
      hilbertValue := v;
    }

    /** `HilbertEntry(node, mbr)` with `hilbertValue` starting from 0: the largest child value. */
    constructor FromNode(dim: nat, node: Node<HilbertChild>, mbr: Mbr)
      requires node.Valid() && node.capacity >= 1 && mbr.HasDim(dim)
      requires forall i :: 0 <= i < node.nEntries ==> node.entries[i].mbr.HasDim(dim)
      ensures Valid() && this.node == node && this.mbr == mbr
      ensures hilbertValue == MaxHv(node.Contents())
    {
      var v := 0;
      var children := node.Contents();
      for k := 0 to |children|
        invariant v == MaxHv(children[..k])
      {
        assert children[..k + 1][..k] == children[..k];
        v := MaxOf(v, children[k].hv);
      }
      assert children[..|children|] == children;
      this.dim := dim;
      this.node := node;
      this.mbr := mbr;
      hilbertValue := v;
    }

    /**
     * `add(entry)`: the child is appended (a full node throws and nothing
     * changes), the rectangle grows, the new last child is merged back into
     * Hilbert order, and the largest value is updated.
     */
    method Add(e: HilbertChild) returns (r: Result<()>)
      requires Valid() && e.mbr.HasDim(dim) && SortedBy(node.Contents(), HvLess)
      modifies this, node, node.entries
      ensures Valid() && SortedBy(node.Contents(), HvLess)
      ensures old(node.nEntries) < node.capacity ==>
        r.Success? && node.Contents() == Insert(old(node.Contents()), e, HvLess) &&
        mbr == Union(old(mbr), e.mbr) && hilbertValue == MaxOf(old(hilbertValue), e.hv)
      ensures old(node.nEntries) >= node.capacity ==>
        r == Failure(OutOfRange) && node.Contents() == old(node.Contents()) &&
        mbr == old(mbr) && hilbertValue == old(hilbertValue)
    {
      ghost var s := node.Contents();
      r := node.Add(e);
      if r.Success? {
        Appended(s, e);
        AddKeepsOrder(s, e);
      }
    }

    /** What `add` does once the node has taken the child. */
    method Appended(ghost s: seq<HilbertChild>, e: HilbertChild)
      requires node.Valid() && node.capacity >= 1 && mbr.HasDim(dim) && e.mbr.HasDim(dim)
      requires node.Contents() == s + [e] && forall k :: 0 <= k < |s| ==> s[k].mbr.HasDim(dim)
      modifies this, node.entries
      ensures Valid()
      ensures node.Contents() == Insert(s, e, HvLess)
      ensures mbr == Union(old(mbr), e.mbr) && hilbertValue == MaxOf(old(hilbertValue), e.hv)
    {
      mbr := Union(mbr, e.mbr);
      MergeLast(s, e);
      InsertKeepsDim(s, e, dim);
      hilbertValue := MaxOf(hilbertValue, e.hv);
    }

    /**
     * `inplace_merge(begin, end - 1, end)`: the last child moves back past
     * every child with a greater Hilbert value.
     */
    method MergeLast(ghost s: seq<HilbertChild>, e: HilbertChild)
      requires node.Valid() && node.Contents() == s + [e]
      modifies node.entries
      ensures node.Valid() && node.Contents() == Insert(s, e, HvLess)
    {
      var j := node.nEntries - 1;
      while j > 0 && e.hv < node.entries[j - 1].hv
        invariant 0 <= j <= |s| && node.Valid()
        invariant node.Contents() == s[..j] + [e] + s[j..]
        invariant forall k :: j <= k < |s| ==> HvLess(e, s[k])
        decreases j
      {
        assert node.entries[j - 1] == s[j - 1];
        node.entries[j] := node.entries[j - 1];
        node.entries[j - 1] := e;
        assert s[..j] == s[..j - 1] + [s[j - 1]];
        assert s[j - 1..] == [s[j - 1]] + s[j..];
        j := j - 1;
      }
      if j > 0 {
        assert node.entries[j - 1] == s[j - 1];
      }
      InsertPosUnique(s, e, j);
      InsertShape(s, e, HvLess);
    }

    /** `include(entry)`: the rectangle and the largest value grow; the children do not change. */
    method Include(e: HilbertChild)
      requires Valid() && e.mbr.HasDim(dim)
      modifies this
      ensures Valid()
      ensures mbr == Union(old(mbr), e.mbr) && Contains(mbr, e.mbr) && Contains(mbr, old(mbr))
      ensures hilbertValue == MaxOf(old(hilbertValue), e.hv) && hilbertValue >= e.hv
    {
      mbr := Union(mbr, e.mbr);
      hilbertValue := MaxOf(hilbertValue, e.hv);
    }

    /** `getHilbertValue()`. */
    function GetHilbertValue(): (v: nat)
      reads this
      ensures v == hilbertValue
    {
      hilbertValue
    }

    /**
     * `assign(start, end)`: the largest value is reset to 0, then the base
     * assignment runs with this entry's `add`, so the children end up in
     * stable Hilbert order (an insertion sort of the range), the rectangle is
     * the union over the range and the value the largest in it. An empty range
     * throws after the reset; a range longer than the capacity throws once the
     * node is full, keeping the children added so far.
     */
    method Assign(range: seq<HilbertChild>) returns (r: Result<()>)
      requires Valid() && forall k :: 0 <= k < |range| ==> range[k].mbr.HasDim(dim)
      modifies this, node, node.entries
      ensures Valid()
      ensures |range| == 0 ==>
        r == Failure(LogicError) && hilbertValue == 0 && mbr == old(mbr) && node.Contents() == old(node.Contents())
      ensures 0 < |range| ==>
        (r.Success? <==> |range| <= node.capacity) && (r.Failure? ==> r.error == OutOfRange) &&
        node.Contents() == InsertionSort(Taken(range, node.capacity), HvLess) &&
        mbr == UnionOf(Taken(range, node.capacity), dim) &&
        hilbertValue == MaxHv(Taken(range, node.capacity))
    {
      hilbertValue := 0;
      if |range| == 0 {
        return Failure(LogicError);
      }
      r := Refill(range);
    }

    /** The non-empty case of `assign`, starting from `hilbertValue == 0`. */
    method Refill(range: seq<HilbertChild>) returns (r: Result<()>)
      requires Valid() && hilbertValue == 0 && |range| > 0
      requires forall k :: 0 <= k < |range| ==> range[k].mbr.HasDim(dim)
      modifies this, node, node.entries
      ensures Valid()
      ensures (r.Success? <==> |range| <= node.capacity) && (r.Failure? ==> r.error == OutOfRange)
      ensures node.Contents() == InsertionSort(Taken(range, node.capacity), HvLess)
      ensures mbr == UnionOf(Taken(range, node.capacity), dim)
      ensures hilbertValue == MaxHv(Taken(range, node.capacity))
    {
      mbr := range[0].mbr;
      node.nEntries := 0;
      var k := 0;
      r := Success(());
      while k < |range|
        invariant k <= |range| && Filled(range, k) && r.Success?
        decreases |range| - k
      {
        r := RefillStep(range, k);
        if r.Failure? {
          assert Taken(range, node.capacity) == range[..k];
          return;
        }
        k := k + 1;
      }
      assert Taken(range, node.capacity) == range[..k];
    }

    /**
     * The entry holds the first `k` children of the range: in Hilbert order,
     * with their union as rectangle and their largest value.
     */
    ghost predicate Filled(range: seq<HilbertChild>, k: nat)
      reads this, node, node.entries
      requires 0 < |range| && k <= |range| && forall j :: 0 <= j < |range| ==> range[j].mbr.HasDim(dim)
    {
      Valid() && k <= node.capacity && node.nEntries == k &&
      node.Contents() == InsertionSort(range[..k], HvLess) &&
      mbr == UnionUpTo(range, k, dim) && hilbertValue == MaxHv(range[..k])
    }

    /** One `add` of the base assignment: the next child joins, or a full node throws. */
    method RefillStep(range: seq<HilbertChild>, k: nat) returns (r: Result<()>)
      requires k < |range| && forall j :: 0 <= j < |range| ==> range[j].mbr.HasDim(dim)
      requires Filled(range, k)
      modifies this, node, node.entries
      ensures r.Success? ==> Filled(range, k + 1)
      ensures r.Failure? ==> r == Failure(OutOfRange) && k == node.capacity && Filled(range, k)
    {
      AssignedChildren(range[..k], node.Contents());
      r := Add(range[k]);
      PrefixStep(range, k, dim);
    }
  }

  /** The children of a range that fit in a node of the given capacity. */
  function Taken(range: seq<HilbertChild>, capacity: nat): (t: seq<HilbertChild>)
    ensures |t| <= capacity && t <= range
    ensures |range| <= capacity ==> t == range
  {
    if |range| <= capacity then range else range[..capacity]
  }

  /** Every child `Insert` leaves is one of the children or the new one, so they keep their dimension. */
  lemma InsertKeepsDim(s: seq<HilbertChild>, e: HilbertChild, dim: nat)
    requires e.mbr.HasDim(dim) && forall k :: 0 <= k < |s| ==> s[k].mbr.HasDim(dim)
    ensures forall k :: 0 <= k < |Insert(s, e, HvLess)| ==> Insert(s, e, HvLess)[k].mbr.HasDim(dim)
  {
    var r := Insert(s, e, HvLess);
    forall k | 0 <= k < |r| ensures r[k].mbr.HasDim(dim) {
      assert r[k] in multiset(r);
      if r[k] != e {
        assert r[k] in multiset(s);
      }
    }
  }

  /** The union of the children's rectangles, in their order. */
  function UnionOf(cs: seq<HilbertChild>, dim: nat): (r: Mbr)
    requires |cs| > 0 && forall k :: 0 <= k < |cs| ==> cs[k].mbr.HasDim(dim)
    ensures r.HasDim(dim)
  {
    var ms := Entries.RectsOf(cs, HilbertRect);
    assert |ms[0].lo| == dim by {
      assert ms[0] == cs[0].mbr && cs[0].mbr.HasDim(dim);
    }
    forall i | 0 <= i < |ms| ensures ms[i].HasDim(dim) {
      assert ms[i] == cs[i].mbr && cs[i].mbr.HasDim(dim);
    }
    Entries.UnionAll(ms)
  }

  /**
   * The children left by `assign` are in Hilbert order, are a permutation of
   * the children it added, and none has a value above the entry's.
   */
  lemma AssignedChildren(added: seq<HilbertChild>, children: seq<HilbertChild>)
    requires children == InsertionSort(added, HvLess)
    ensures SortedBy(children, HvLess) && multiset(children) == multiset(added)
    ensures forall c :: c in children ==> c.hv <= MaxHv(added)
  {
    HvLessIsWeakOrder();
    InsertionSortSorted(added, HvLess);
    MaxHvIsMaximum(added);
    forall c | c in children ensures c.hv <= MaxHv(added) {
      assert c in multiset(children);
      assert c in added;
    }
  }

  /** `add` keeps the children in Hilbert order when they were in order before. */
  lemma AddKeepsOrder(before: seq<HilbertChild>, e: HilbertChild)
    requires SortedBy(before, HvLess)
    ensures SortedBy(Insert(before, e, HvLess), HvLess)
    ensures multiset(Insert(before, e, HvLess)) == multiset(before) + multiset{e}
  {
    HvLessIsWeakOrder();
    InsertSorted(before, e, HvLess);
  }

  /**
   * The uninitialised start of `HilbertEntry(node, mbr)` shows: a node whose
   * one child has value 3, built over storage holding 7, reports 7 where the
   * intended largest child value is 3.
   */
  lemma UninitialisedValueCounterexample(m: Mbr)
    ensures var children := [HilbertChild(0, m, 3)];
      MaxOf(7, MaxHv(children)) == 7 && MaxHv(children) == 3
  {
    var children := [HilbertChild(0, m, 3)];
    assert children[..0] == [];
  }
}
