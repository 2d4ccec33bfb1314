/**
 * The tree-level rules of the Hilbert R-tree: descending to the child whose
 * Hilbert value is the first above the new entry's, picking a neighbouring
 * node with room when a node overflows, and spreading the children of
 * several nodes evenly over them in Hilbert order.
 */
module HilbertRtrees {
  import opened Wrappers
  import opened Sorting
  import opened Algorithms
  import opened BenchNodes
  import opened HilbertEntries
  import Arithmetic

  /* ---- chooseSubtree ---- */

  /** `r` splits the children: values up to `v` before it, values above `v` from it on. */
  ghost predicate SplitsAt(cs: seq<HilbertChild>, v: nat, r: nat) {
    r <= |cs| &&
    (forall k :: 0 <= k < r ==> cs[k].hv <= v) &&
    (forall k :: r <= k < |cs| ==> v < cs[k].hv)
  }

  /** `std::upper_bound(lo, hi, v)` by Hilbert value: halve the range until it is empty. */
  function UpperBound(cs: seq<HilbertChild>, v: nat, lo: nat, hi: nat): (r: nat)
    requires lo <= hi <= |cs|
    ensures lo <= r <= hi
    decreases hi - lo
  {
    if lo == hi then lo
    else
      var mid := lo + (hi - lo) / 2;
      if v < cs[mid].hv then UpperBound(cs, v, lo, mid) else UpperBound(cs, v, mid + 1, hi)
  }

  /**
   * On children sorted by Hilbert value, the binary search finds the first
   * child whose value is strictly greater than `v`.
   */
  lemma {:induction false} UpperBoundSplits(cs: seq<HilbertChild>, v: nat, lo: nat, hi: nat)
    requires lo <= hi <= |cs| && SortedBy(cs, HvLess)
    requires forall k :: 0 <= k < lo ==> cs[k].hv <= v
    requires forall k :: hi <= k < |cs| ==> v < cs[k].hv
    ensures SplitsAt(cs, v, UpperBound(cs, v, lo, hi))
    decreases hi - lo
  {
    if lo < hi {
      var mid := lo + (hi - lo) / 2;
      if v < cs[mid].hv {
        forall k | mid <= k < |cs| ensures v < cs[k].hv {
          if k > mid {
            assert !HvLess(cs[k], cs[mid]);
          }
        }
        UpperBoundSplits(cs, v, lo, mid);
      } else {
        forall k | 0 <= k < mid + 1 ensures cs[k].hv <= v {
          if k < mid {
            assert !HvLess(cs[mid], cs[k]);
          }
        }
        UpperBoundSplits(cs, v, mid + 1, hi);
      }
    }
  }

  /**
   * `chooseSubtree(parent, entry)`: the child found by the binary search, or
   * the last child when no child's value is above the entry's.
   */
  function ChooseSubtree(cs: seq<HilbertChild>, v: nat): (r: nat)
    requires |cs| > 0
    ensures r < |cs|
  {
    var it := UpperBound(cs, v, 0, |cs|);
    if it == |cs| then |cs| - 1 else it
  }

  /**
   * On sorted children the chosen child is the first one with a Hilbert value
   * strictly greater than the entry's, and the last one when there is none.
   */
  lemma ChooseSubtreeChoice(cs: seq<HilbertChild>, v: nat)
    requires |cs| > 0 && SortedBy(cs, HvLess)
    ensures var r := ChooseSubtree(cs, v);
      ((exists k :: 0 <= k < |cs| && v < cs[k].hv) ==>
        v < cs[r].hv && forall k :: 0 <= k < r ==> cs[k].hv <= v) &&
      ((forall k :: 0 <= k < |cs| ==> cs[k].hv <= v) ==> r == |cs| - 1)
  {
    UpperBoundSplits(cs, v, 0, |cs|);
  }

  /* ---- the neighbour window of insert ---- */

  function Min(x: int, y: int): int { if x < y then x else y }
  function Max(x: int, y: int): int { if x < y then y else x }

  /**
   * The window `[start, end)` of at most `s` siblings checked for room when
   * the child at `dest` of a parent with `p` children is full: up to `s / 2`
   * siblings to its right, the rest to its left, clipped to the parent. It
   * always lies within the parent, contains `dest`, and holds `s` siblings
   * (all of them when the parent has fewer).
   */
  function Window(dest: nat, p: nat, s: nat): (w: (nat, nat))
    requires dest < p && s >= 1
    ensures w.0 <= dest < w.1 <= p
    ensures w.1 - w.0 == Min(s, p)
  {
    var right := Min(s / 2, p - dest - 1);
    var start := Max(dest - (s - 1 - right), 0);
    (start, Min(start + s, p))
  }

  const UintMax: nat := 0xFFFF_FFFF

  function Abs(x: int): nat { if x < 0 then -x else x }

  /**
   * The cost of moving the overflowing entry to sibling `j`: the largest
   * unsigned value for a full sibling, otherwise twice the distance, plus one
   * for a sibling to the left, computed in 32-bit unsigned arithmetic.
   */
  function Cost(full: bool, dest: int, j: int): (c: nat)
    ensures c <= UintMax
  {
    if full then UintMax
    else
      var distance := dest - j;
      (2 * Abs(distance) + (if distance > 0 then 1 else 0)) % (UintMax + 1)
  }

  /**
   * Siblings with room cost less than a full one when the parent is small,
   * and a nearer sibling costs less than a farther one, the right one of two
   * equally near siblings winning.
   */
  lemma CostOrder(dest: int, j: int, i: int)
    requires Abs(dest - j) < 0x4000_0000 && Abs(dest - i) < 0x4000_0000
    ensures Cost(false, dest, j) < Cost(true, dest, j)
    ensures Cost(false, dest, j) < Cost(false, dest, i) ==>
      Abs(dest - j) < Abs(dest - i) || (Abs(dest - j) == Abs(dest - i) && j > i)
    ensures Cost(false, dest, j) == Cost(false, dest, i) ==> j == i
  {
    SmallCost(dest, j);
    SmallCost(dest, i);
  }

  /** Near the chosen position the cost does not wrap around. */
  lemma SmallCost(dest: int, j: int)
    requires Abs(dest - j) < 0x4000_0000
    ensures Cost(false, dest, j) == 2 * Abs(dest - j) + (if dest - j > 0 then 1 else 0)
  {
    var x := 2 * Abs(dest - j) + (if dest - j > 0 then 1 else 0);
    Arithmetic.DivModUnique(x, UintMax + 1, 0, x);
  }

  /**
   * The `argmin` over the window: the position of the first sibling with the
   * smallest cost.
   */
  method ChooseNeighbour(full: seq<bool>, dest: nat, start: nat, end: nat) returns (chosen: nat)
    requires start <= dest < end <= |full|
    ensures start <= chosen < end
    ensures forall j :: start <= j < end ==> Cost(full[chosen], dest, chosen) <= Cost(full[j], dest, j)
    ensures forall j :: start <= j < chosen ==> Cost(full[chosen], dest, chosen) < Cost(full[j], dest, j)
  {
    var costs := seq(end - start, i requires 0 <= i < end - start => Cost(full[start + i], dest, start + i));
    IntLessIsOrder();
    var i := Argmin(costs, c => c, Algorithms.IntLess);
    chosen := start + i;
    forall j | start <= j < end
      ensures Cost(full[chosen], dest, chosen) <= Cost(full[j], dest, j)
      ensures j < chosen ==> Cost(full[chosen], dest, chosen) < Cost(full[j], dest, j)
    {
      assert costs[j - start] == Cost(full[j], dest, j);
      if j - start < i {
        assert Algorithms.IntLess(costs[i], costs[j - start]);
      } else if j - start > i {
        assert !Algorithms.IntLess(costs[j - start], costs[i]);
      }
    }
  }

  /**
   * Whenever the window holds a sibling with room, the chosen sibling has
   * room, and no sibling with room is nearer to the overflowing one.
   */
  lemma NeighbourHasRoom(full: seq<bool>, dest: nat, start: nat, end: nat, chosen: nat)
    requires start <= dest < end <= |full| < 0x4000_0000
    requires start <= chosen < end
    requires forall j :: start <= j < end ==> Cost(full[chosen], dest, chosen) <= Cost(full[j], dest, j)
    requires exists j :: start <= j < end && !full[j]
    ensures !full[chosen]
    ensures forall j :: start <= j < end && !full[j] ==> Abs(dest - chosen) <= Abs(dest - j)
  {
    var j :| start <= j < end && !full[j];
    CostOrder(dest, j, chosen);
    forall j | start <= j < end && !full[j] ensures Abs(dest - chosen) <= Abs(dest - j) {
      CostOrder(dest, j, chosen);
      CostOrder(dest, chosen, j);
    }
  }

  /* ---- redistribute ---- */

  /**
   * How many children parent `i` receives when each gets the base share `b`
   * and the first `r` one more.
   */
  function Share(b: nat, r: nat, i: nat): nat {
    b + (if i < r then 1 else 0)
  }

  /** Where parent `i`'s children start in the sorted buffer: the shares before it, added up. */
  function ShareStart(b: nat, r: nat, i: nat): nat {
    if i == 0 then 0 else ShareStart(b, r, i - 1) + Share(b, r, i - 1)
  }

  /** In closed form, `i` base shares plus one for each of the first `r` parents. */
  lemma {:induction false} ShareStartClosed(b: nat, r: nat, i: nat)
    ensures ShareStart(b, r, i) == Spread(i, b, r)
  {
    if i > 0 {
      ShareStartClosed(b, r, i - 1);
      assert i * b == (i - 1) * b + b;
    }
  }

  /** `i` shares of `b`, plus one for each of the first `r`. */
  function Spread(i: nat, b: nat, r: nat): nat {
    i * b + Min(i, r)
  }

  lemma SpreadBound(i: nat, k: nat, b: nat, r: nat)
    requires i <= k && r < k
    ensures Spread(i, b, r) <= k * b + r
    ensures Spread(k, b, r) == k * b + r
  {
    Arithmetic.MulMonotone(b, i, k);
    assert i * b == b * i && k * b == b * k;
  }

  /**
   * Laid end to end, the `k` shares of `n` children with base share `n / k`
   * and `n % k` larger shares stay inside the buffer and cover it exactly.
   */
  lemma ShareFacts(n: nat, k: nat, i: nat)
    requires k > 0 && i < k
    ensures ShareStart(n / k, n % k, i + 1) <= n
    ensures ShareStart(n / k, n % k, k) == n
  {
    var b, r := n / k, n % k;
    assert n == k * b + r;
    SpreadBound(i + 1, k, b, r);
    ShareStartClosed(b, r, i + 1);
    ShareStartClosed(b, r, k);
  }

  /** Parent `i`'s share of `n` children among `k` parents. */
  function ShareOf(n: nat, k: nat, i: nat): nat
    requires k > 0
  {
    Share(n / k, n % k, i)
  }

  /** Every share is the base share or one more, and the larger shares come first. */
  lemma SharesEven(n: nat, k: nat, i: nat, j: nat)
    requires i < j < k
    ensures n / k <= ShareOf(n, k, j) <= ShareOf(n, k, i) <= n / k + 1
  {
  }

  /** The children of several entries, one node after the other. */
  function Gathered(parents: seq<HilbertEntry>): seq<HilbertChild>
    reads set p | p in parents :: p.node
    reads set p | p in parents :: p.node.entries
    requires forall p :: p in parents ==> p.node.Valid()
  {
    if |parents| == 0 then []
    else Gathered(parents[..|parents| - 1]) + parents[|parents| - 1].node.Contents()
  }

  /** Distinct entries with distinct nodes, each node with its own array. */
  ghost predicate Distinct(parents: seq<HilbertEntry>) {
    forall i, j :: 0 <= i < j < |parents| ==>
      parents[i] != parents[j] && parents[i].node != parents[j].node &&
      parents[i].node.entries != parents[j].node.entries
  }

  /** Every entry is well formed over dimension `dim`. */
  ghost predicate AllValid(parents: seq<HilbertEntry>, dim: nat)
    reads set p | p in parents :: p
    reads set p | p in parents :: p.node
    reads set p | p in parents :: p.node.entries
  {
    forall i :: 0 <= i < |parents| ==> parents[i].Valid() && parents[i].dim == dim
  }

  /** The sorted buffer: the gathered children in stable Hilbert order (`std::sort`). */
  function Buffer(children: seq<HilbertChild>): (b: seq<HilbertChild>)
    ensures multiset(b) == multiset(children) && SortedBy(b, HvLess)
  {
    HvLessIsWeakOrder();
    InsertionSortSorted(children, HvLess);
    InsertionSort(children, HvLess)
  }

  /**
   * `redistribute(start, end)`: all children of the parents are collected,
   * sorted by Hilbert value and handed out again in order, parent `i`
   * receiving its share. Each hand-out is an `assign`, which throws on an
   * empty share or one above the node's capacity.
   */
  method Redistribute(parents: seq<HilbertEntry>, ghost dim: nat) returns (r: Result<()>, ghost buffer: seq<HilbertChild>)
    requires |parents| > 0 && Distinct(parents) && AllValid(parents, dim)
    modifies set p | p in parents :: p
    modifies set p | p in parents :: p.node
    modifies set p | p in parents :: p.node.entries
    ensures AllValid(parents, dim)
    ensures buffer == Buffer(old(Gathered(parents)))
    ensures r.Success? <==>
      forall i :: 0 <= i < |parents| ==> 0 < ShareOf(|buffer|, |parents|, i) <= parents[i].node.capacity
    ensures r.Success? ==> forall i :: 0 <= i < |parents| ==> Holds(parents[i], Part(buffer, |parents|, i), dim)
  {
    var entries := Gather(parents, dim);
    var sorted := Buffer(entries);
    BufferKeepsDim(entries, dim);
    buffer := sorted;
    r := Distribute(parents, sorted, dim);
  }

  /** The hand-out loop of `redistribute`, over the sorted buffer. */
  method Distribute(parents: seq<HilbertEntry>, sorted: seq<HilbertChild>, ghost dim: nat) returns (r: Result<()>)
    requires |parents| > 0 && Distinct(parents) && AllValid(parents, dim)
    requires SortedBy(sorted, HvLess) && forall k :: 0 <= k < |sorted| ==> sorted[k].mbr.HasDim(dim)
    modifies set p | p in parents :: p
    modifies set p | p in parents :: p.node
    modifies set p | p in parents :: p.node.entries
    ensures AllValid(parents, dim)
    ensures r.Success? <==>
      forall i :: 0 <= i < |parents| ==> 0 < ShareOf(|sorted|, |parents|, i) <= parents[i].node.capacity
    ensures r.Success? ==> Done(parents, sorted, |parents|, dim)
  {
    var k: nat := |parents|;
    var n: nat := |sorted|;
    Remainder(n, k);
    var base: nat := n / k;
    var leftover := n - base * k;
    ghost var rem := n % k;
    var it: nat := 0;
    r := Success(());
    for i := 0 to k
      invariant AllValid(parents, dim)
      invariant leftover == rem - Min(i, rem)
      invariant it == ShareStart(base, rem, i) && r.Success?
      invariant Done(parents, sorted, i, dim)
    {
      r, it, leftover := HandOut(parents, i, sorted, it, base, leftover, dim);
      if r.Failure? {
        return;
      }
    }
  }

  /**
   * The first `i` parents each had a share between one and their capacity,
   * and each holds exactly its part of the sorted buffer.
   */
  ghost predicate Done(parents: seq<HilbertEntry>, sorted: seq<HilbertChild>, i: nat, dim: nat)
    reads set p | p in parents :: p
    reads set p | p in parents :: p.node
    reads set p | p in parents :: p.node.entries
    requires i <= |parents|
  {
    forall j :: 0 <= j < i ==>
      0 < ShareOf(|sorted|, |parents|, j) <= parents[j].node.capacity &&
      Holds(parents[j], Part(sorted, |parents|, j), dim)
  }

  /** Sorting keeps every child, so it keeps their dimension. */
  lemma BufferKeepsDim(children: seq<HilbertChild>, dim: nat)
    requires forall k :: 0 <= k < |children| ==> children[k].mbr.HasDim(dim)
    ensures forall k :: 0 <= k < |Buffer(children)| ==> Buffer(children)[k].mbr.HasDim(dim)
  {
    var b := Buffer(children);
    forall k | 0 <= k < |b| ensures b[k].mbr.HasDim(dim) {
      assert b[k] in multiset(b);
      assert b[k] in children;
    }
  }

  /** The buffer of `redistribute`: the children of every parent appended in turn. */
  method Gather(parents: seq<HilbertEntry>, ghost dim: nat) returns (entries: seq<HilbertChild>)
    requires AllValid(parents, dim)
    ensures entries == Gathered(parents)
    ensures forall k :: 0 <= k < |entries| ==> entries[k].mbr.HasDim(dim)
  {
    entries := [];
    for i := 0 to |parents|
      invariant entries == Gathered(parents[..i])
      invariant forall k :: 0 <= k < |entries| ==> entries[k].mbr.HasDim(dim)
    {
      assert parents[..i + 1][..i] == parents[..i];
      entries := entries + parents[i].node.Contents();
    }
    assert parents[..|parents|] == parents;
  }

  /**
   * One round of the hand-out loop, for parent `i`: its part of the buffer
   * runs from `it` to `it + base`, one further while leftovers remain, and
   * is handed over with `i->assign(it, end)`. The parents before it keep the
   * parts they were given.
   */
  method HandOut(parents: seq<HilbertEntry>, i: nat, sorted: seq<HilbertChild>, it: nat, base: nat, leftover: int, ghost dim: nat)
    returns (r: Result<()>, end: nat, left: int)
    requires Distinct(parents) && AllValid(parents, dim) && i < |parents|
    requires SortedBy(sorted, HvLess) && forall k :: 0 <= k < |sorted| ==> sorted[k].mbr.HasDim(dim)
    requires base == |sorted| / |parents|
    requires leftover == |sorted| % |parents| - Min(i, |sorted| % |parents|)
    requires it == ShareStart(base, |sorted| % |parents|, i)
    requires Done(parents, sorted, i, dim)
    modifies parents[i], parents[i].node, parents[i].node.entries
    ensures AllValid(parents, dim)
    ensures left == |sorted| % |parents| - Min(i + 1, |sorted| % |parents|)
    ensures end == ShareStart(base, |sorted| % |parents|, i + 1)
    ensures r.Success? <==> 0 < ShareOf(|sorted|, |parents|, i) <= parents[i].node.capacity
    ensures r.Success? ==> Done(parents, sorted, i + 1, dim)
  {
    end, left := it + base, leftover;
    if left > 0 {
      end := end + 1;
      left := left - 1;
    }
    r := AssignShare(parents, i, sorted, it, end, dim);
  }

  /**
   * `i->assign(it, end)` for parent `i`, whose part of the buffer runs from
   * `it` to `end`; the parents before it keep the parts they were given.
   */
  method AssignShare(parents: seq<HilbertEntry>, i: nat, sorted: seq<HilbertChild>, it: nat, end: nat, ghost dim: nat)
    returns (r: Result<()>)
    requires Distinct(parents) && AllValid(parents, dim) && i < |parents|
    requires SortedBy(sorted, HvLess) && forall k :: 0 <= k < |sorted| ==> sorted[k].mbr.HasDim(dim)
    requires it == ShareStart(|sorted| / |parents|, |sorted| % |parents|, i)
    requires end == ShareStart(|sorted| / |parents|, |sorted| % |parents|, i + 1)
    requires Done(parents, sorted, i, dim)
    modifies parents[i], parents[i].node, parents[i].node.entries
    ensures AllValid(parents, dim)
    ensures r.Success? <==> 0 < ShareOf(|sorted|, |parents|, i) <= parents[i].node.capacity
    ensures r.Success? ==> Done(parents, sorted, i + 1, dim)
  {
    ShareFacts(|sorted|, |parents|, i);
    var part := sorted[it..end];
    assert part == Part(sorted, |parents|, i);
    var p := parents[i];
    SortedSlice(sorted, it, end);
    r := AssignPart(p, part, dim);
    forall j | 0 <= j < |parents| && j != i
      ensures parents[j].Valid() && parents[j].dim == dim
      ensures j < i ==> Holds(parents[j], Part(sorted, |parents|, j), dim)
    {
      var q := parents[j];
      assert q != p && q.node != p.node && q.node.entries != p.node.entries by {
        if j < i { } else { }
      }
      assert Unchanged(q);
      if j < i {
        assert old(Holds(q, Part(sorted, |parents|, j), dim));
      }
    }
  }

  /** `assign` of a part already in Hilbert order: the entry then holds exactly that part. */
  method AssignPart(p: HilbertEntry, part: seq<HilbertChild>, ghost dim: nat) returns (r: Result<()>)
    requires p.Valid() && p.dim == dim && SortedBy(part, HvLess)
    requires forall k :: 0 <= k < |part| ==> part[k].mbr.HasDim(dim)
    modifies p, p.node, p.node.entries
    ensures p.Valid()
    ensures r.Success? <==> 0 < |part| <= p.node.capacity
    ensures r.Success? ==> Holds(p, part, dim)
  {
    r := p.Assign(part);
    if r.Success? {
      SortedIsFixed(part);
    }
  }

  /**
   * Entry `p` holds exactly the children `part`, and its rectangle and largest
   * value are those of `part`.
   */
  ghost predicate Holds(p: HilbertEntry, part: seq<HilbertChild>, dim: nat)
    reads p, p.node, p.node.entries
  {
    p.node.Valid() && |part| > 0 && (forall k :: 0 <= k < |part| ==> part[k].mbr.HasDim(dim)) &&
    p.node.Contents() == part && p.hilbertValue == MaxHv(part) && p.mbr == UnionOf(part, dim)
  }

  lemma Remainder(n: nat, k: nat)
    requires k > 0
    ensures n / k >= 0 && n - (n / k) * k == n % k
  {
  }

  /** An entry whose node, rectangle and value are as they were. */
  twostate predicate Unchanged(p: HilbertEntry)
    reads p, p.node, p.node.entries
  {
    unchanged(p, p.node, p.node.entries)
  }

  lemma SortedSlice(s: seq<HilbertChild>, lo: nat, hi: nat)
    requires lo <= hi <= |s| && SortedBy(s, HvLess)
    ensures SortedBy(s[lo..hi], HvLess)
  {
    forall i, j | 0 <= i < j < hi - lo ensures !HvLess(s[lo..hi][j], s[lo..hi][i]) {
      assert !HvLess(s[lo + j], s[lo + i]);
    }
  }

  /** Sorting children that are already in Hilbert order changes nothing. */
  lemma {:induction false} SortedIsFixed(s: seq<HilbertChild>)
    requires SortedBy(s, HvLess)
    ensures InsertionSort(s, HvLess) == s
  {
    if |s| > 0 {
      var init := s[..|s| - 1];
      SortedSlice(s, 0, |s| - 1);
      SortedIsFixed(init);
      if |init| > 0 {
        assert !HvLess(s[|s| - 1], init[|init| - 1]);
      }
      assert init + [s[|s| - 1]] == s;
    }
  }

  /** The first `i` parts laid end to end are the buffer up to where part `i` starts. */
  lemma {:induction false} PartsCoverBuffer(buffer: seq<HilbertChild>, k: nat, i: nat)
    requires k > 0 && i <= k
    ensures ShareStart(|buffer| / k, |buffer| % k, i) <= |buffer|
    ensures Parts(buffer, k, i) == buffer[..ShareStart(|buffer| / k, |buffer| % k, i)]
  {
    if i > 0 {
      PartsCoverBuffer(buffer, k, i - 1);
      ShareFacts(|buffer|, k, i - 1);
      var a := ShareStart(|buffer| / k, |buffer| % k, i - 1);
      var b := ShareStart(|buffer| / k, |buffer| % k, i);
      assert buffer[..a] + buffer[a..b] == buffer[..b];
    }
  }

  /**
   * Redistribution hands out every child exactly once, in Hilbert order
   * across the parents: all the parts laid end to end are the sorted buffer.
   */
  lemma AllPartsAreBuffer(buffer: seq<HilbertChild>, k: nat)
    requires k > 0
    ensures Parts(buffer, k, k) == buffer
  {
    PartsCoverBuffer(buffer, k, k);
    ShareFacts(|buffer|, k, k - 1);
  }

  /** Parent `j`'s part of the sorted buffer. */
  function Part(buffer: seq<HilbertChild>, k: nat, j: nat): (part: seq<HilbertChild>)
    requires k > 0 && j < k
    ensures |part| == ShareOf(|buffer|, k, j)
  {
    ShareFacts(|buffer|, k, j);
    buffer[ShareStart(|buffer| / k, |buffer| % k, j)..ShareStart(|buffer| / k, |buffer| % k, j + 1)]
  }

  /** The first `i` parts of the buffer, one after the other. */
  function Parts(buffer: seq<HilbertChild>, k: nat, i: nat): seq<HilbertChild>
    requires k > 0 && i <= k
  {
    if i == 0 then [] else Parts(buffer, k, i - 1) + Part(buffer, k, i - 1)
  }
}
