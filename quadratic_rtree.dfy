/**
 * The quadratic R-tree (`Rtree::QuadraticRtree`, Guttman's quadratic split):
 * the subtree a new entry descends into, the two seeds of a split, and the
 * split itself, which hands the entries of an overflowing node and its new
 * sibling out between the two, one at a time.
 */
module QuadraticRtrees {
  import opened Mbrs
  import opened Algorithms
  import opened Combinations
  import opened PointerArrayNodes

  /* ---- chooseSubtree ---- */

  /** The key `chooseSubtree` minimises: the volume enlargement, then the volume. */
  function Enlargement(m: Mbr, o: Mbr): (int, int)
    requires SameDim(m, o)
  {
    (Delta(VolumeMeasure, m, o), Volume(m))
  }

  /**
   * `chooseSubtree(parent, newEntry)`: the first child whose rectangle grows
   * least in volume when the new rectangle is added, ties going to the
   * smaller volume; an empty node gives its end position.
   */
  method ChooseSubtree<L, P>(node: PointerArrayNode<L, P>, o: Mbr) returns (i: nat)
    requires node.Valid() && o.HasDim(node.dim)
    ensures i <= |node.Contents()| && (i == |node.Contents()| <==> |node.Contents()| == 0)
    ensures i < |node.Contents()| ==>
      (forall j :: 0 <= j < i ==>
        PairLess(Enlargement(node.Contents()[i].mbr, o), Enlargement(node.Contents()[j].mbr, o))) &&
      (forall j :: i < j < |node.Contents()| ==>
        !PairLess(Enlargement(node.Contents()[j].mbr, o), Enlargement(node.Contents()[i].mbr, o)))
  {
    var es := node.Contents();
    node.ContentsDim();
    var keys := seq(|es|, j requires 0 <= j < |es| => Enlargement(es[j].mbr, o));
    PairLessIsOrder();
    i := Argmin(keys, k => k, PairLess);
    assert forall j :: 0 <= j < |es| ==> keys[j] == Enlargement(es[j].mbr, o);
  }

  /**
   * The child `chooseSubtree` picks needs no more enlargement than any other,
   * and among those needing as little, has the least volume.
   */
  lemma ChosenSubtreeIsLeast(es: seq<NodeEntry<int, int>>, o: Mbr, i: nat, j: nat)
    requires AllDim(es, |o.lo|) && o.HasDim(|o.lo|) && i < |es| && j < |es|
    requires forall k :: 0 <= k < i ==> PairLess(Enlargement(es[i].mbr, o), Enlargement(es[k].mbr, o))
    requires forall k :: i < k < |es| ==> !PairLess(Enlargement(es[k].mbr, o), Enlargement(es[i].mbr, o))
    ensures Delta(VolumeMeasure, es[i].mbr, o) <= Delta(VolumeMeasure, es[j].mbr, o)
    ensures Delta(VolumeMeasure, es[i].mbr, o) == Delta(VolumeMeasure, es[j].mbr, o) ==>
      Volume(es[i].mbr) <= Volume(es[j].mbr)
  {
    if j < i {
      assert PairLess(Enlargement(es[i].mbr, o), Enlargement(es[j].mbr, o));
    } else if i < j {
      assert !PairLess(Enlargement(es[j].mbr, o), Enlargement(es[i].mbr, o));
    }
  }

  /* ---- the seeds ---- */

  /** `waste` between the entries at positions `p` and `q`. */
  function PairWaste<L, P>(es: seq<NodeEntry<L, P>>, p: nat, q: nat): int
    requires p < |es| && q < |es| && SameDim(es[p].mbr, es[q].mbr)
  {
    Waste(es[p].mbr, es[q].mbr)
  }

  /**
   * `(first, second)` are the seeds of `es`: the first pair, in the order
   * `CombinationsView` visits them, that wastes the most volume.
   */
  ghost predicate IsSeeds<L, P>(es: seq<NodeEntry<L, P>>, dim: nat, first: nat, second: nat) {
    AllDim(es, dim) && first < second < |es| &&
    (forall p, q :: 0 <= p < q < |es| ==> PairWaste(es, p, q) <= PairWaste(es, first, second)) &&
    (forall p, q :: 0 <= p < q < |es| && PairBefore((p, q), (first, second)) ==>
      PairWaste(es, p, q) < PairWaste(es, first, second))
  }

  /**
   * `QuadraticSeeds(first, last)`: `argmin` over every pair of positions of
   * the negated waste, so the first pair with the largest waste.
   */
  method Seeds<L, P>(es: seq<NodeEntry<L, P>>, dim: nat) returns (first: nat, second: nat)
    requires |es| >= 2 && AllDim(es, dim)
    ensures IsSeeds(es, dim, first, second)
  {
    var pairs := LexPairs(0, |es|);
    var keys := NegWastes(es, dim);
    LexPairsMembership(0, |es|, 0, 1);
    IntLessIsOrder();
    var best := Argmin(keys, k => k, Algorithms.IntLess);
    SeedsAreBest(es, dim, best);
    first, second := pairs[best].0, pairs[best].1;
  }

  /** Every enumerated pair is a pair of positions of `es`, first before second. */
  lemma PairsInRange(n: nat)
    ensures forall t :: 0 <= t < |LexPairs(0, n)| ==> 0 <= LexPairs(0, n)[t].0 < LexPairs(0, n)[t].1 < n
  {
    forall t | 0 <= t < |LexPairs(0, n)| ensures 0 <= LexPairs(0, n)[t].0 < LexPairs(0, n)[t].1 < n {
      LexPairsMembership(0, n, LexPairs(0, n)[t].0, LexPairs(0, n)[t].1);
    }
  }

  /** The key `QuadraticSeeds` minimises for every pair, in enumeration order: the negated waste. */
  function NegWastes<L, P>(es: seq<NodeEntry<L, P>>, dim: nat): (r: seq<int>)
    requires AllDim(es, dim)
    ensures |r| == |LexPairs(0, |es|)|
    ensures forall t :: 0 <= t < |r| ==>
      0 <= LexPairs(0, |es|)[t].0 < LexPairs(0, |es|)[t].1 < |es| &&
      r[t] == -PairWaste(es, LexPairs(0, |es|)[t].0, LexPairs(0, |es|)[t].1)
  {
    var pairs := LexPairs(0, |es|);
    PairsInRange(|es|);
    seq(|pairs|, t requires 0 <= t < |pairs| => -PairWaste(es, pairs[t].0, pairs[t].1))
  }

  /** The pair at the first smallest negated waste is the first pair with the largest waste. */
  lemma SeedsAreBest<L, P>(es: seq<NodeEntry<L, P>>, dim: nat, best: nat)
    requires AllDim(es, dim)
    requires IsFirstMin(NegWastes(es, dim), k => k, Algorithms.IntLess, best)
    ensures best < |LexPairs(0, |es|)|
    ensures IsSeeds(es, dim, LexPairs(0, |es|)[best].0, LexPairs(0, |es|)[best].1)
  {
    var pairs, keys := LexPairs(0, |es|), NegWastes(es, dim);
    var first, second := pairs[best].0, pairs[best].1;
    LexPairsIncreasing(0, |es|);
    forall p, q | 0 <= p < q < |es|
      ensures PairWaste(es, p, q) <= PairWaste(es, first, second)
      ensures PairBefore((p, q), (first, second)) ==> PairWaste(es, p, q) < PairWaste(es, first, second)
    {
      LexPairsMembership(0, |es|, p, q);
      var t :| 0 <= t < |pairs| && pairs[t] == (p, q);
      assert keys[t] == -PairWaste(es, p, q);
      if t < best {
        assert Algorithms.IntLess(keys[best], keys[t]);
      } else if t > best {
        assert !Algorithms.IntLess(keys[t], keys[best]);
        assert PairBefore(pairs[best], pairs[t]);
      }
    }
  }

  /* ---- the split ---- */

  /** `|a - b|`, the `std::fabs` of the difference. */
  function Abs(x: int): nat {
    if x < 0 then -x else x
  }

  /** How much it matters which group an entry joins: the difference of the two enlargements. */
  function Preference(mbrA: Mbr, mbrB: Mbr, e: Mbr): nat
    requires SameDim(mbrA, e) && SameDim(mbrB, e)
  {
    Abs(Delta(VolumeMeasure, mbrA, e) - Delta(VolumeMeasure, mbrB, e))
  }

  /**
   * The `argmin` of the split's loop: among the entries still to place, the
   * first one with the largest preference for one group.
   */
  method PickNext<L, P>(rest: seq<NodeEntry<L, P>>, mbrA: Mbr, mbrB: Mbr, ghost dim: nat) returns (sel: nat)
    requires |rest| > 0 && AllDim(rest, dim) && mbrA.HasDim(dim) && mbrB.HasDim(dim)
    ensures sel < |rest|
    ensures forall j :: 0 <= j < |rest| ==> Preference(mbrA, mbrB, rest[j].mbr) <= Preference(mbrA, mbrB, rest[sel].mbr)
    ensures forall j :: 0 <= j < sel ==> Preference(mbrA, mbrB, rest[j].mbr) < Preference(mbrA, mbrB, rest[sel].mbr)
  {
    var keys := seq(|rest|, j requires 0 <= j < |rest| => -(Preference(mbrA, mbrB, rest[j].mbr) as int));
    IntLessIsOrder();
    sel := Argmin(keys, k => k, Algorithms.IntLess);
    forall j | 0 <= j < |rest|
      ensures Preference(mbrA, mbrB, rest[j].mbr) <= Preference(mbrA, mbrB, rest[sel].mbr)
      ensures j < sel ==> Preference(mbrA, mbrB, rest[j].mbr) < Preference(mbrA, mbrB, rest[sel].mbr)
    {
      assert keys[j] == -(Preference(mbrA, mbrB, rest[j].mbr) as int);
      assert keys[sel] == -(Preference(mbrA, mbrB, rest[sel].mbr) as int);
    }
  }

  /** `std::tuple`'s `operator>` on triples: lexicographic. */
  predicate TripleGreater(x: (int, int, int), y: (int, int, int)) {
    x.0 > y.0 || (x.0 == y.0 && (x.1 > y.1 || (x.1 == y.1 && x.2 > y.2)))
  }

  /**
   * The split sends an entry to group b exactly when (enlargement, volume,
   * size) of group a is lexicographically greater than that of group b.
   */
  predicate GoesToB(mbrA: Mbr, sizeA: nat, mbrB: Mbr, sizeB: nat, e: Mbr)
    requires SameDim(mbrA, e) && SameDim(mbrB, e)
  {
    TripleGreater((Delta(VolumeMeasure, mbrA, e), Volume(mbrA), sizeA),
                  (Delta(VolumeMeasure, mbrB, e), Volume(mbrB), sizeB))
  }

  /**
   * An entry joins the group it enlarges less; on a tie the group with the
   * smaller rectangle, then the one with fewer entries; a complete tie keeps
   * it in group a. Swapping the groups never sends it to b both times.
   */
  lemma GroupChoice(mbrA: Mbr, sizeA: nat, mbrB: Mbr, sizeB: nat, e: Mbr)
    requires SameDim(mbrA, e) && SameDim(mbrB, e)
    ensures Delta(VolumeMeasure, mbrA, e) < Delta(VolumeMeasure, mbrB, e) ==> !GoesToB(mbrA, sizeA, mbrB, sizeB, e)
    ensures Delta(VolumeMeasure, mbrB, e) < Delta(VolumeMeasure, mbrA, e) ==> GoesToB(mbrA, sizeA, mbrB, sizeB, e)
    ensures GoesToB(mbrA, sizeA, mbrB, sizeB, e) ==> !GoesToB(mbrB, sizeB, mbrA, sizeA, e)
    ensures Delta(VolumeMeasure, mbrA, e) == Delta(VolumeMeasure, mbrB, e) && Volume(mbrA) == Volume(mbrB) ==>
      (GoesToB(mbrA, sizeA, mbrB, sizeB, e) <==> sizeA > sizeB)
  {
  }

  /** The objects a node owns: itself and its three arrays. */
  ghost function Repr<L, P>(n: PointerArrayNode<L, P>): set<object> {
    {n, n.mbrs, n.links, n.plugins}
  }

  /** Two nodes of the same dimension that share no storage. */
  ghost predicate Separate<L, P>(a: PointerArrayNode<L, P>, b: PointerArrayNode<L, P>) {
    Repr(a) !! Repr(b) && a.dim == b.dim
  }

  /** `std::iter_swap` of two positions of the buffer. */
  function Swap<T>(s: seq<T>, i: nat, j: nat): (r: seq<T>)
    requires i < |s| && j < |s|
    ensures |r| == |s| && r[i] == s[j] && r[j] == s[i]
    ensures forall k :: 0 <= k < |s| && k != i && k != j ==> r[k] == s[k]
    ensures multiset(r) == multiset(s)
  {
    s[i := s[j]][j := s[i]]
  }

  /** Swapping two positions at or after `i` keeps the entries from `i` on. */
  lemma SwapKeepsSuffix<T>(s: seq<T>, i: nat, j: nat)
    requires i <= j < |s|
    ensures multiset(Swap(s, i, j)[i..]) == multiset(s[i..])
  {
    var r := Swap(s, i, j);
    assert s == s[..i] + s[i..] && r == r[..i] + r[i..];
    assert r[..i] == s[..i];
  }

  /**
   * The seeds go to the two last positions of the buffer (second seed last),
   * and cutting them off leaves every other entry exactly once.
   */
  lemma SeedsRemoved<T>(s: seq<T>, first: nat, second: nat)
    requires first < second < |s|
    ensures var t := Swap(Swap(s, second, |s| - 1), first, |s| - 2);
      t[|s| - 2] == s[first] && t[|s| - 1] == s[second] &&
      multiset(t[..|s| - 2]) + multiset{s[first], s[second]} == multiset(s)
  {
    var t := Swap(Swap(s, second, |s| - 1), first, |s| - 2);
    assert t == t[..|s| - 2] + [t[|s| - 2], t[|s| - 1]];
  }

  /**
   * `redistribute(original, newEntry)`: the quadratic split of the entries of
   * nodes `a` and `b`. The seeds start the two groups; every other entry goes,
   * one at a time, the one with the largest preference first, to the group it
   * enlarges less; once one group holds all but `m` entries, the rest go to
   * the other. Every entry ends up in exactly one group, and each group holds
   * between `m` and all but `m` entries.
   */
  method Redistribute<L, P>(a: PointerArrayNode<L, P>, b: PointerArrayNode<L, P>, m: nat)
    returns (first: nat, second: nat)
    requires a.Valid() && b.Valid() && Separate(a, b)
    requires 1 <= m && 2 * m <= a.size + b.size
    requires a.size + b.size - m <= a.capacity && a.size + b.size - m <= b.capacity
    modifies Repr(a), Repr(b)
    ensures IsSeeds(old(a.Contents() + b.Contents()), a.dim, first, second)
    ensures Finished(a, b, old(a.size + b.size), m, old(a.Contents() + b.Contents())[first],
      old(a.Contents() + b.Contents())[second], multiset(old(a.Contents() + b.Contents())))
  {
    var entries := a.Contents() + b.Contents();
    a.ContentsDim();
    b.ContentsDim();
    var n := |entries|;
    first, second := Seeds(entries, a.dim);
    var e1, e2 := entries[first], entries[second];
    PlantSeeds(a, b, e1, e2);
    SeedsRemoved(entries, first, second);
    var rest := Swap(Swap(entries, second, n - 1), first, n - 2)[..n - 2];
    Split(a, b, rest, m, n, e1, e2);
  }

  /** `a = {*seeds.first}; b = {*seeds.second};` */
  method PlantSeeds<L, P>(a: PointerArrayNode<L, P>, b: PointerArrayNode<L, P>, e1: NodeEntry<L, P>, e2: NodeEntry<L, P>)
    requires a.Valid() && b.Valid() && Separate(a, b) && 1 <= a.capacity && 1 <= b.capacity
    requires e1.mbr.HasDim(a.dim) && e2.mbr.HasDim(a.dim)
    modifies Repr(a), Repr(b)
    ensures a.Valid() && b.Valid() && a.Contents() == [e1] && b.Contents() == [e2]
  {
    a.Assign([e1]);
    b.Assign([e2]);
  }

  /**
   * The state of the split between two entries: both nodes hold at least
   * their seed and at most all but `m` entries, the entries not yet placed
   * are `buffer[idx..]`, and no entry was lost or added.
   */
  ghost predicate Splitting<L, P>(a: PointerArrayNode<L, P>, b: PointerArrayNode<L, P>, buffer: seq<NodeEntry<L, P>>,
                                  idx: nat, n: nat, m: nat, e1: NodeEntry<L, P>, e2: NodeEntry<L, P>,
                                  total: multiset<NodeEntry<L, P>>, mbrA: Mbr, mbrB: Mbr)
    reads a, a.mbrs, a.links, a.plugins, b, b.mbrs, b.links, b.plugins
  {
    a.Valid() && b.Valid() && Separate(a, b) &&
    idx <= |buffer| && AllDim(buffer, a.dim) && mbrA.HasDim(a.dim) && mbrB.HasDim(a.dim) &&
    a.size + b.size + (|buffer| - idx) == n && 2 * m <= n && n - m <= a.capacity && n - m <= b.capacity &&
    1 <= a.size <= n - m && 1 <= b.size <= n - m &&
    a.Contents()[0] == e1 && b.Contents()[0] == e2 &&
    multiset(a.Contents()) + multiset(b.Contents()) + multiset(buffer[idx..]) == total
  }

  /**
   * The outcome of the split: the seeds head the two nodes, the entries are
   * exactly those of `total`, and each node holds between `m` and `n - m`.
   */
  ghost predicate Finished<L, P>(a: PointerArrayNode<L, P>, b: PointerArrayNode<L, P>, n: nat, m: nat,
                                 e1: NodeEntry<L, P>, e2: NodeEntry<L, P>, total: multiset<NodeEntry<L, P>>)
    reads a, a.mbrs, a.links, a.plugins, b, b.mbrs, b.links, b.plugins
  {
    a.Valid() && b.Valid() &&
    m <= |a.Contents()| <= n - m && m <= |b.Contents()| <= n - m &&
    |a.Contents()| >= 1 && |b.Contents()| >= 1 && a.Contents()[0] == e1 && b.Contents()[0] == e2 &&
    multiset(a.Contents()) + multiset(b.Contents()) == total
  }

  /** The loop of the split, over the entries left once the seeds are placed. */
  method Split<L, P>(a: PointerArrayNode<L, P>, b: PointerArrayNode<L, P>, entries: seq<NodeEntry<L, P>>,
                     m: nat, n: nat, e1: NodeEntry<L, P>, e2: NodeEntry<L, P>)
    requires a.Valid() && b.Valid() && Separate(a, b)
    requires a.Contents() == [e1] && b.Contents() == [e2] && n == |entries| + 2
    requires 1 <= m && 2 * m <= n && n - m <= a.capacity && n - m <= b.capacity
    requires AllDim(entries, a.dim) && e1.mbr.HasDim(a.dim) && e2.mbr.HasDim(a.dim)
    modifies Repr(a), Repr(b)
    ensures Finished(a, b, n, m, e1, e2, multiset{e1, e2} + multiset(entries))
  {
    ghost var total := multiset{e1, e2} + multiset(entries);
    var buffer, mbrA, mbrB := entries, e1.mbr, e2.mbr;
    var idx := 0;
    assert buffer[idx..] == entries;
    while idx < |buffer|
      invariant |buffer| == |entries| && Splitting(a, b, buffer, idx, n, m, e1, e2, total, mbrA, mbrB)
    {
      if a.size == n - m || b.size == n - m {
        PlaceRest(a, b, buffer, idx, n, m, e1, e2, total, mbrA, mbrB);
        return;
      }
      buffer, mbrA, mbrB := PlaceNext(a, b, buffer, idx, n, m, e1, e2, total, mbrA, mbrB);
      idx := idx + 1;
    }
  }

  /** Once a group holds all but `m` entries, the other takes every remaining one. */
  method PlaceRest<L, P>(a: PointerArrayNode<L, P>, b: PointerArrayNode<L, P>, buffer: seq<NodeEntry<L, P>>,
                         idx: nat, n: nat, m: nat, ghost e1: NodeEntry<L, P>, ghost e2: NodeEntry<L, P>,
                         ghost total: multiset<NodeEntry<L, P>>, mbrA: Mbr, mbrB: Mbr)
    requires Splitting(a, b, buffer, idx, n, m, e1, e2, total, mbrA, mbrB)
    requires a.size == n - m || b.size == n - m
    modifies Repr(a), Repr(b)
    ensures Finished(a, b, n, m, e1, e2, total)
  {
    var rest := buffer[idx..];
    assert AllDim(rest, a.dim) by {
      forall k | 0 <= k < |rest| ensures rest[k].mbr.HasDim(a.dim) {
        assert rest[k] == buffer[idx + k];
      }
    }
    if a.size == n - m {
      Append(b, a, rest);
    } else {
      Append(a, b, rest);
    }
  }

  /** `to.add(first, last)`, which leaves the other node alone. */
  method Append<L, P>(to: PointerArrayNode<L, P>, other: PointerArrayNode<L, P>, rest: seq<NodeEntry<L, P>>)
    requires to.Valid() && other.Valid() && Separate(to, other) && 1 <= to.size
    requires to.size + |rest| <= to.capacity && AllDim(rest, to.dim)
    modifies Repr(to)
    ensures to.Valid() && other.Valid() && to.size == old(to.size) + |rest|
    ensures to.Contents()[0] == old(to.Contents()[0])
    ensures multiset(to.Contents()) == old(multiset(to.Contents())) + multiset(rest)
  {
    to.AddRange(rest);
  }

  /**
   * One round of the loop: the remaining entry with the largest preference
   * is swapped to the front of what is left and joins the group `GoesToB`
   * picks; that group's rectangle grows to cover it.
   */
  method PlaceNext<L, P>(a: PointerArrayNode<L, P>, b: PointerArrayNode<L, P>, buffer: seq<NodeEntry<L, P>>,
                         idx: nat, n: nat, m: nat, ghost e1: NodeEntry<L, P>, ghost e2: NodeEntry<L, P>,
                         ghost total: multiset<NodeEntry<L, P>>, mbrA: Mbr, mbrB: Mbr)
    returns (next: seq<NodeEntry<L, P>>, nextA: Mbr, nextB: Mbr)
    requires Splitting(a, b, buffer, idx, n, m, e1, e2, total, mbrA, mbrB)
    requires idx < |buffer| && a.size < n - m && b.size < n - m
    modifies Repr(a), Repr(b)
    ensures |next| == |buffer| && Splitting(a, b, next, idx + 1, n, m, e1, e2, total, nextA, nextB)
  {
    next := Select(buffer, idx, mbrA, mbrB, a.dim);
    var e := next[idx];
    ghost var placed := multiset(a.Contents()) + multiset(b.Contents());
    nextA, nextB := Join(a, b, e, mbrA, mbrB);
    assert multiset(a.Contents()) + multiset(b.Contents()) == placed + multiset{e};
  }

  /**
   * The `argmin` and `iter_swap` of a round: among `buffer[idx..]`, the first
   * entry with the largest preference moves to position `idx`; the entries
   * still to place stay the same.
   */
  method Select<L, P>(buffer: seq<NodeEntry<L, P>>, idx: nat, mbrA: Mbr, mbrB: Mbr, ghost dim: nat)
    returns (next: seq<NodeEntry<L, P>>)
    requires idx < |buffer| && AllDim(buffer, dim) && mbrA.HasDim(dim) && mbrB.HasDim(dim)
    ensures |next| == |buffer| && AllDim(next, dim) && next[..idx] == buffer[..idx]
    ensures multiset(next[idx..]) == multiset(buffer[idx..])
    ensures multiset(next[idx..]) == multiset{next[idx]} + multiset(next[idx + 1..])
    ensures forall k :: idx <= k < |next| ==>
      Preference(mbrA, mbrB, next[k].mbr) <= Preference(mbrA, mbrB, next[idx].mbr)
  {
    var rest := buffer[idx..];
    SuffixDims(buffer, idx, dim);
    var sel := PickNext(rest, mbrA, mbrB, dim);
    SwapKeepsSuffix(buffer, idx, idx + sel);
    SwapFirst(buffer, idx, idx + sel, mbrA, mbrB, dim);
    next := Swap(buffer, idx, idx + sel);
    assert next[idx..] == [next[idx]] + next[idx + 1..];
  }

  lemma SuffixDims<L, P>(buffer: seq<NodeEntry<L, P>>, idx: nat, dim: nat)
    requires idx <= |buffer| && AllDim(buffer, dim)
    ensures AllDim(buffer[idx..], dim)
  {
    var rest := buffer[idx..];
    forall k | 0 <= k < |rest| ensures rest[k].mbr.HasDim(dim) {
      assert rest[k] == buffer[idx + k];
    }
  }

  /**
   * Swapping the entry of highest preference among those from `idx` on into
   * position `idx` puts it first and leaves the positions before `idx` alone.
   */
  lemma SwapFirst<L, P>(buffer: seq<NodeEntry<L, P>>, idx: nat, j: nat, mbrA: Mbr, mbrB: Mbr, dim: nat)
    requires idx <= j < |buffer| && AllDim(buffer, dim) && AllDim(buffer[idx..], dim)
    requires mbrA.HasDim(dim) && mbrB.HasDim(dim)
    requires forall k :: 0 <= k < |buffer[idx..]| ==>
      Preference(mbrA, mbrB, buffer[idx..][k].mbr) <= Preference(mbrA, mbrB, buffer[idx..][j - idx].mbr)
    ensures AllDim(Swap(buffer, idx, j), dim) && Swap(buffer, idx, j)[..idx] == buffer[..idx]
    ensures forall k :: idx <= k < |buffer| ==>
      Preference(mbrA, mbrB, Swap(buffer, idx, j)[k].mbr) <= Preference(mbrA, mbrB, Swap(buffer, idx, j)[idx].mbr)
  {
    var next, rest := Swap(buffer, idx, j), buffer[idx..];
    forall k | idx <= k < |buffer|
      ensures Preference(mbrA, mbrB, next[k].mbr) <= Preference(mbrA, mbrB, next[idx].mbr)
    {
      assert rest[k - idx] == buffer[k];
      if k != j {
        assert next[k] == rest[k - idx] || k == idx;
      }
    }
  }

  /**
   * The entry joins group b when `GoesToB` says so and group a otherwise;
   * the rectangle of the group it joins grows to cover it.
   */
  method Join<L, P>(a: PointerArrayNode<L, P>, b: PointerArrayNode<L, P>, e: NodeEntry<L, P>, mbrA: Mbr, mbrB: Mbr)
    returns (nextA: Mbr, nextB: Mbr)
    requires a.Valid() && b.Valid() && Separate(a, b) && 1 <= a.size < a.capacity && 1 <= b.size < b.capacity
    requires e.mbr.HasDim(a.dim) && mbrA.HasDim(a.dim) && mbrB.HasDim(a.dim)
    modifies Repr(a), Repr(b)
    ensures a.Valid() && b.Valid()
    ensures GoesToB(mbrA, old(a.size), mbrB, old(b.size), e.mbr) ==>
      a.Contents() == old(a.Contents()) && b.Contents() == old(b.Contents()) + [e] &&
      nextA == mbrA && nextB == Union(mbrB, e.mbr)
    ensures !GoesToB(mbrA, old(a.size), mbrB, old(b.size), e.mbr) ==>
      a.Contents() == old(a.Contents()) + [e] && b.Contents() == old(b.Contents()) &&
      nextA == Union(mbrA, e.mbr) && nextB == mbrB
    ensures a.size + b.size == old(a.size + b.size) + 1
    ensures old(a.size) <= a.size && old(b.size) <= b.size
    ensures a.Contents()[0] == old(a.Contents()[0]) && b.Contents()[0] == old(b.Contents()[0])
    ensures multiset(a.Contents()) + multiset(b.Contents()) ==
      old(multiset(a.Contents()) + multiset(b.Contents())) + multiset{e}
    ensures nextA.HasDim(a.dim) && nextB.HasDim(a.dim)
  {
    nextA, nextB := mbrA, mbrB;
    if GoesToB(mbrA, a.size, mbrB, b.size, e.mbr) {
      b.Add(e);
      nextB := Union(mbrB, e.mbr);
    } else {
      a.Add(e);
      nextA := Union(mbrA, e.mbr);
    }
  }
}
