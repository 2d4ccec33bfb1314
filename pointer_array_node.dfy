/**
 * Fixed-capacity R-tree nodes (`BaseNode` with the `PointerArrayNode` storage
 * layout): the MBRs, links and plugin data of the entries live in three
 * separate arrays of length C, and `size` counts the entries in use. A link
 * (a child node or an object id) and the plugin data are opaque values of
 * the type parameters `L` and `P`.
 */
module PointerArrayNodes {
  import opened Wrappers
  import opened Mbrs

  /** `value_type`: one entry of a node, as it is read out or written in. */
  datatype NodeEntry<L, P> = NodeEntry(mbr: Mbr, link: L, plugin: P)

  /** Every entry's rectangle has `dim` dimensions. */
  predicate AllDim<L, P>(es: seq<NodeEntry<L, P>>, dim: nat) {
    forall i :: 0 <= i < |es| ==> es[i].mbr.HasDim(dim)
  }

  /** The links of the entries whose rectangle meets `query`, in index order. */
  function MatchingLinks<L, P>(es: seq<NodeEntry<L, P>>, query: Mbr): seq<L>
    requires query.HasDim(|query.lo|) && AllDim(es, |query.lo|)
  {
    if |es| == 0 then []
    else
      MatchingLinks(es[..|es| - 1], query) +
      (if Intersects(es[|es| - 1].mbr, query) then [es[|es| - 1].link] else [])
  }

  /** A link is yielded exactly when some entry carrying it meets the query. */
  lemma {:induction false} MatchingLinksMembership<L, P>(es: seq<NodeEntry<L, P>>, query: Mbr, l: L)
    requires query.HasDim(|query.lo|) && AllDim(es, |query.lo|)
    ensures l in MatchingLinks(es, query) <==>
      exists i :: 0 <= i < |es| && Intersects(es[i].mbr, query) && es[i].link == l
  {
    if |es| > 0 {
      var init := es[..|es| - 1];
      MatchingLinksMembership(init, query, l);
      if exists i :: 0 <= i < |init| && Intersects(init[i].mbr, query) && init[i].link == l {
        var i :| 0 <= i < |init| && Intersects(init[i].mbr, query) && init[i].link == l;
        assert es[i] == init[i];
      }
      if exists i :: 0 <= i < |es| && Intersects(es[i].mbr, query) && es[i].link == l {
        var i :| 0 <= i < |es| && Intersects(es[i].mbr, query) && es[i].link == l;
        if i < |init| {
          assert init[i] == es[i];
        }
      }
    }
  }

  /** No more links are yielded than there are entries. */
  lemma {:induction false} MatchingLinksLength<L, P>(es: seq<NodeEntry<L, P>>, query: Mbr)
    requires query.HasDim(|query.lo|) && AllDim(es, |query.lo|)
    ensures |MatchingLinks(es, query)| <= |es|
  {
    if |es| > 0 {
      MatchingLinksLength(es[..|es| - 1], query);
    }
  }

  /** The first position from `i` on whose rectangle meets `query`, or `|es|`. */
  function NextMatch<L, P>(es: seq<NodeEntry<L, P>>, query: Mbr, i: nat): (r: nat)
    requires query.HasDim(|query.lo|) && AllDim(es, |query.lo|)
    decreases |es| - i
  {
    if i >= |es| || Intersects(es[i].mbr, query) then i else NextMatch(es, query, i + 1)
  }

  /**
   * `findNext` stops at the first position at or after `i` whose rectangle
   * meets the query, or at the end; it skips nothing that meets it.
   */
  lemma {:induction false} NextMatchFacts<L, P>(es: seq<NodeEntry<L, P>>, query: Mbr, i: nat)
    requires query.HasDim(|query.lo|) && AllDim(es, |query.lo|) && i <= |es|
    ensures i <= NextMatch(es, query, i) <= |es|
    ensures NextMatch(es, query, i) < |es| ==> Intersects(es[NextMatch(es, query, i)].mbr, query)
    ensures forall k :: i <= k < NextMatch(es, query, i) ==> !Intersects(es[k].mbr, query)
    decreases |es| - i
  {
    if i < |es| && !Intersects(es[i].mbr, query) {
      NextMatchFacts(es, query, i + 1);
    }
  }

  /** The links yielded from position `i` on. */
  function MatchingFrom<L, P>(es: seq<NodeEntry<L, P>>, query: Mbr, i: nat): seq<L>
    requires query.HasDim(|query.lo|) && AllDim(es, |query.lo|) && i <= |es|
  {
    MatchingLinks(es[i..], query)
  }

  class PointerArrayNode<L, P> {
    /** The dimension D of every rectangle and the capacity C. */
    const dim: nat
    const capacity: nat
    /** `mbrs[C]`, `links[C]`, `plugins[C]`. */
    const mbrs: array<Mbr>
    const links: array<L>
    const plugins: array<P>
    /** The number of entries in use. */
    var size: nat

    ghost predicate Valid()
      reads this, mbrs
    {
      mbrs.Length == capacity && links.Length == capacity && plugins.Length == capacity &&
      size <= capacity &&
      mbrs as object != links as object && mbrs as object != plugins as object &&
      links as object != plugins as object &&
      forall i :: 0 <= i < capacity ==> mbrs[i].HasDim(dim)
    }

    /** The entries in use, `begin()` to `end()`. */
    function Contents(): seq<NodeEntry<L, P>>
      reads this, mbrs, links, plugins
      requires Valid()
    {
      var n := size;
      seq(n, i requires 0 <= i < n && i < mbrs.Length && i < links.Length && i < plugins.Length
        reads mbrs, links, plugins => NodeEntry(mbrs[i], links[i], plugins[i]))
    }

    lemma ContentsDim()
      requires Valid()
      ensures AllDim(Contents(), dim)
    {
    }

    /** `BaseNode()`: an empty node; unused slots hold the given blank values. */
    constructor(dim: nat, capacity: nat, blankLink: L, blankPlugin: P)
      ensures Valid() && fresh(mbrs) && fresh(links) && fresh(plugins)
      ensures this.dim == dim && this.capacity == capacity
      ensures Contents() == []
    {
      this.dim := dim;
      this.capacity := capacity;
      var blank := Mbr(seq(dim, _ => 0), seq(dim, _ => 0));
      mbrs := new Mbr[capacity](_ => blank);
      links := new L[capacity](_ => blankLink);
      plugins := new P[capacity](_ => blankPlugin);
      size := 0;
    }

    /** `BaseNode(entries)`: a node holding exactly the given entries. */
    constructor Of(dim: nat, capacity: nat, blankLink: L, blankPlugin: P, entries: seq<NodeEntry<L, P>>)
      requires |entries| <= capacity && AllDim(entries, dim)
      ensures Valid() && fresh(mbrs) && fresh(links) && fresh(plugins)
      ensures this.dim == dim && this.capacity == capacity
      ensures Contents() == entries
    {
      this.dim := dim;
      this.capacity := capacity;
      var blank := Mbr(seq(dim, _ => 0), seq(dim, _ => 0));
      mbrs := new Mbr[capacity](_ => blank);
      links := new L[capacity](_ => blankLink);
      plugins := new P[capacity](_ => blankPlugin);
      size := 0;
      new;
      Assign(entries);
    }

    /** `getMbr(index)`: reads the slot, in use or not. */
    function GetMbr(index: nat): Mbr
      reads this, mbrs
      requires Valid() && index < capacity
    {
      mbrs[index]
    }

    function GetLink(index: nat): L
      reads this, mbrs, links
      requires Valid() && index < capacity
    {
      links[index]
    }

    function GetPlugin(index: nat): P
      reads this, mbrs, plugins
      requires Valid() && index < capacity
    {
      plugins[index]
    }

    /** `setMbr(index, m)`: `getMbr(index)` is `m` afterwards and no other slot changes. */
    method SetMbr(index: nat, m: Mbr)
      requires Valid() && index < capacity && m.HasDim(dim)
      modifies mbrs
      ensures Valid()
      ensures GetMbr(index) == m
      ensures mbrs[..] == old(mbrs[..])[index := m]
      ensures links[..] == old(links[..]) && plugins[..] == old(plugins[..])
    {
      mbrs[index] := m;
    }

    /** `setLink(index, l)`: `getLink(index)` is `l` afterwards and no other slot changes. */
    method SetLink(index: nat, l: L)
      requires Valid() && index < capacity
      modifies links
      ensures Valid()
      ensures GetLink(index) == l
      ensures links[..] == old(links[..])[index := l]
      ensures mbrs[..] == old(mbrs[..]) && plugins[..] == old(plugins[..])
    {
      links[index] := l;
    }

    /** `setPlugin(index, p)`: `getPlugin(index)` is `p` afterwards and no other slot changes. */
    method SetPlugin(index: nat, p: P)
      requires Valid() && index < capacity
      modifies plugins
      ensures Valid()
      ensures GetPlugin(index) == p
      ensures plugins[..] == old(plugins[..])[index := p]
      ensures mbrs[..] == old(mbrs[..]) && links[..] == old(links[..])
    {
      plugins[index] := p;
    }

    /** `operator[](i) const`: the entry at an index in use. */
    function At(i: nat): (e: NodeEntry<L, P>)
      reads this, mbrs, links, plugins
      requires Valid() && i < size
      ensures e == Contents()[i]
    {
      NodeEntry(mbrs[i], links[i], plugins[i])
    }

    /** `operator[](i) = entry`: write the three parts of an entry through the proxy. */
    method Put(i: nat, e: NodeEntry<L, P>)
      requires Valid() && i < size && e.mbr.HasDim(dim)
      modifies mbrs, links, plugins
      ensures Valid()
      ensures Contents() == old(Contents())[i := e]
    {
      ghost var before := Contents();
      ghost var m0, l0, p0 := mbrs[..], links[..], plugins[..];
      assert forall j :: 0 <= j < size ==> before[j] == NodeEntry(m0[j], l0[j], p0[j]);
      SetMbr(i, e.mbr);
      assert links[..] == l0 && plugins[..] == p0;
      assert forall j :: 0 <= j < capacity && j != i ==> mbrs[j] == m0[j];
      SetLink(i, e.link);
      assert forall j :: 0 <= j < capacity && j != i ==> mbrs[j] == m0[j] && links[j] == l0[j];
      SetPlugin(i, e.plugin);
      forall j | 0 <= j < size
        ensures Contents()[j] == before[i := e][j]
      {
        if j != i {
          assert mbrs[j] == m0[j] && links[j] == l0[j] && plugins[j] == p0[j];
        }
      }
    }

    function GetSize(): (n: nat)
      reads this
    {
      size
    }

    /** `isFull()`: exactly when `add` may no longer be called. */
    function IsFull(): (full: bool)
      reads this, mbrs
      requires Valid()
      ensures full <==> !(size < capacity)
    {
      size == capacity
    }

    /** `add(entry)`: append an entry to a node that is not full. */
    method Add(e: NodeEntry<L, P>)
      requires Valid() && size < capacity && e.mbr.HasDim(dim)
      modifies this, mbrs, links, plugins
      ensures Valid()
      ensures Contents() == old(Contents()) + [e]
    {
      size := size + 1;
      Put(size - 1, e);
    }

    /** `add(first, last)`: append every entry of the range, in order. */
    method AddRange(range: seq<NodeEntry<L, P>>)
      requires Valid() && size + |range| <= capacity && AllDim(range, dim)
      modifies this, mbrs, links, plugins
      ensures Valid()
      ensures Contents() == old(Contents()) + range
    {
      var k := 0;
      while k < |range|
        invariant 0 <= k <= |range|
        invariant Valid() && size == old(size) + k
        invariant Contents() == old(Contents()) + range[..k]
      {
        Add(range[k]);
        assert range[..k + 1] == range[..k] + [range[k]];
        k := k + 1;
      }
    }

    /** `assign(first, last)`: replace the entries with the range. */
    method Assign(range: seq<NodeEntry<L, P>>)
      requires Valid() && |range| <= capacity && AllDim(range, dim)
      modifies this, mbrs, links, plugins
      ensures Valid()
      ensures Contents() == range
    {
      size := 0;
      AddRange(range);
    }

    /** `scan(mbr)`: the begin and end iterators over the entries meeting `query`. */
    method Scan(query: Mbr) returns (first: ScanIterator<L, P>, last: ScanIterator<L, P>)
      requires Valid() && query.HasDim(dim)
      ensures fresh(first) && fresh(last)
      ensures first.node == this && last.node == this && first.query == Some(query)
      ensures first.index == NextMatch(Contents(), query, 0) && last.index == size
    {
      ContentsDim();
      first := new ScanIterator(this, Some(query), 0);
      last := new ScanIterator(this, None, size);
    }
  }

  /** `PointerArrayNode::ScanIterator`: walks the positions whose rectangle meets the query. */
  class ScanIterator<L, P> {
    const node: PointerArrayNode<L, P>
    /** The query; the end iterator has none. */
    const query: Option<Mbr>
    var index: nat

    /** The iterator may look at the query whenever it is before the end. */
    ghost predicate Valid()
      reads this, node, node.mbrs
    {
      node.Valid() && index <= node.size &&
      (query.Some? ==> query.value.HasDim(node.dim)) &&
      (query.None? ==> index == node.size)
    }

    /** Construct and move to the first matching position from `index` on. */
    constructor(node: PointerArrayNode<L, P>, query: Option<Mbr>, index: nat)
      requires node.Valid() && index <= node.size
      requires query.Some? ==> query.value.HasDim(node.dim)
      requires query.None? ==> index == node.size
      ensures Valid() && this.node == node && this.query == query
      ensures query.Some? ==> this.index == NextMatch(node.Contents(), query.value, index)
      ensures query.None? ==> this.index == index
    {
      this.node := node;
      this.query := query;
      this.index := index;
      new;
      FindNext();
    }

    /** `findNext()`: advance past the positions whose rectangle misses the query. */
    method FindNext()
      requires Valid()
      modifies this
      ensures Valid()
      ensures query.Some? ==> index == NextMatch(node.Contents(), query.value, old(index))
      ensures query.None? ==> index == old(index)
    {
      node.ContentsDim();
      while index < node.size && !Intersects(node.mbrs[index], query.value)
        invariant Valid()
        invariant query.Some? ==>
          NextMatch(node.Contents(), query.value, index) == NextMatch(node.Contents(), query.value, old(index))
        decreases node.size - index
      {
        assert node.Contents()[index].mbr == node.mbrs[index];
        index := index + 1;
      }
      if index < node.size {
        assert node.Contents()[index].mbr == node.mbrs[index];
      }
    }

    /** `operator++`: step past the current position and find the next match. */
    method Increment()
      requires Valid() && index < node.size
      modifies this
      ensures Valid()
      ensures index == NextMatch(node.Contents(), query.value, old(index) + 1)
    {
      index := index + 1;
      FindNext();
    }

    /** `operator*`: the link at the current position. */
    function Current(): L
      reads this, node, node.mbrs, node.links
      requires Valid() && index < node.size
    {
      node.links[index]
    }
  }

  /**
   * Iterating `scan(query)` from begin to end yields exactly the links of the
   * entries whose rectangle meets the query, in index order.
   */
  method ScanLinks<L, P>(node: PointerArrayNode<L, P>, query: Mbr) returns (found: seq<L>)
    requires node.Valid() && query.HasDim(node.dim)
    ensures found == MatchingLinks(node.Contents(), query)
  {
    var first, last := node.Scan(query);
    node.ContentsDim();
    ghost var es := node.Contents();
    found := [];
    NextMatchFacts(es, query, 0);
    SkipUnmatched(es, query, 0);
    while first.index != last.index
      invariant first.Valid() && first.node == node && first.query == Some(query)
      invariant last.index == node.size && node.Contents() == es
      invariant found + MatchingFrom(es, query, first.index) == MatchingLinks(es, query)
      invariant first.index < |es| ==> Intersects(es[first.index].mbr, query)
      decreases |es| - first.index
    {
      found := Advance(first, es, query, found);
    }
    assert es[|es|..] == [];
  }

  /** One round of the scan: take the current link, then move to the next match. */
  method Advance<L, P>(it: ScanIterator<L, P>, ghost es: seq<NodeEntry<L, P>>, query: Mbr, found: seq<L>)
    returns (next: seq<L>)
    requires it.Valid() && it.query == Some(query) && it.node.Contents() == es && it.index < |es|
    requires found + MatchingFrom(es, query, it.index) == MatchingLinks(es, query)
    requires Intersects(es[it.index].mbr, query)
    modifies it
    ensures it.Valid() && old(it.index) < it.index
    ensures next + MatchingFrom(es, query, it.index) == MatchingLinks(es, query)
    ensures it.index < |es| ==> Intersects(es[it.index].mbr, query)
  {
    it.node.ContentsDim();
    var i := it.index;
    next := found + [it.Current()];
    assert es[i].link == it.Current();
    MatchingFromStep(es, query, i);
    it.Increment();
    NextMatchFacts(es, query, i + 1);
    SkipUnmatched(es, query, i + 1);
  }

  /** Skipping positions that miss the query yields nothing. */
  lemma SkipUnmatched<L, P>(es: seq<NodeEntry<L, P>>, query: Mbr, i: nat)
    requires query.HasDim(|query.lo|) && AllDim(es, |query.lo|) && i <= |es|
    ensures NextMatch(es, query, i) <= |es|
    ensures MatchingFrom(es, query, i) == MatchingFrom(es, query, NextMatch(es, query, i))
    decreases |es| - i
  {
    NextMatchFacts(es, query, i);
    if i < |es| && !Intersects(es[i].mbr, query) {
      SkipUnmatched(es, query, i + 1);
      MatchingFromCons(es, query, i);
    }
  }

  /** A matching position contributes its link ahead of the rest. */
  lemma MatchingFromStep<L, P>(es: seq<NodeEntry<L, P>>, query: Mbr, i: nat)
    requires query.HasDim(|query.lo|) && AllDim(es, |query.lo|) && i < |es|
    requires Intersects(es[i].mbr, query)
    ensures MatchingFrom(es, query, i) == [es[i].link] + MatchingFrom(es, query, i + 1)
  {
    MatchingFromCons(es, query, i);
  }

  /** Splitting off the first entry of a suffix. */
  lemma MatchingFromCons<L, P>(es: seq<NodeEntry<L, P>>, query: Mbr, i: nat)
    requires query.HasDim(|query.lo|) && AllDim(es, |query.lo|) && i < |es|
    ensures MatchingFrom(es, query, i) ==
      (if Intersects(es[i].mbr, query) then [es[i].link] else []) + MatchingFrom(es, query, i + 1)
  {
    MatchingLinksFront(es[i..], query);
    assert es[i..][1..] == es[i + 1..];
  }

  /** `MatchingLinks` also peels off from the front. */
  lemma {:induction false} MatchingLinksFront<L, P>(es: seq<NodeEntry<L, P>>, query: Mbr)
    requires query.HasDim(|query.lo|) && AllDim(es, |query.lo|) && |es| > 0
    ensures MatchingLinks(es, query) ==
      (if Intersects(es[0].mbr, query) then [es[0].link] else []) + MatchingLinks(es[1..], query)
  {
    if |es| > 1 {
      var init := es[..|es| - 1];
      MatchingLinksFront(init, query);
      assert init[1..] == es[1..][..|es[1..]| - 1];
      assert init[0] == es[0];
    } else {
      assert es[1..] == [];
      assert es[..0] == [];
    }
  }
}
