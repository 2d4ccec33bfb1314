/**
 * The benchmark R-tree's node (`Rtree::Node<D, C>` of the bench indexes): a
 * fixed array of C entries of which the first `nEntries` are in use.
 */
module BenchNodes {
  import opened Wrappers

  class Node<E> {
    /** The capacity C. */
    const capacity: nat
    /** `entries[C]`. */
    const entries: array<E>
    /** `nEntries`: the entries in use are `entries[0 .. nEntries - 1]`. */
    var nEntries: nat

    ghost predicate Valid()
      reads this
    {
      entries.Length == capacity && nEntries <= capacity
    }

    /** The entries from `begin()` to `end()`. */
    function Contents(): seq<E>
      reads this, entries
      requires Valid()
    {
      entries[..nEntries]
    }

    /** A node with no entries; every slot holds `blank`. */
    constructor(capacity: nat, blank: E)
      ensures Valid() && fresh(entries) && this.capacity == capacity
      ensures Contents() == []
    {
      this.capacity := capacity;
      entries := new E[capacity](_ => blank);
      nEntries := 0;
    }

    /** `isFull()`: exactly when the node holds C entries. */
    function IsFull(): (full: bool)
      reads this, entries
      requires Valid()
      ensures full <==> |Contents()| == capacity
    {
      nEntries == capacity
    }

    /**
     * `add(entry)`: a full node throws `out_of_range` and stays as it was;
     * otherwise the entry is stored after the others.
     */
    method Add(e: E) returns (r: Result<()>)
      requires Valid()
      modifies this, entries
      ensures Valid()
      ensures old(nEntries) < capacity ==> r.Success? && Contents() == old(Contents()) + [e]
      ensures old(nEntries) >= capacity ==>
        r == Failure(OutOfRange) && nEntries == old(nEntries) && entries[..] == old(entries[..])
    {
      if nEntries >= capacity {
        return Failure(OutOfRange);
      }
      entries[nEntries] := e;
      nEntries := nEntries + 1;
      assert Contents() == old(Contents()) + [e];
      return Success(());
    }

    /** `reset(entry)`: the node holds exactly the given entry. */
    method Reset(e: E)
      requires Valid() && capacity >= 1
      modifies this, entries
      ensures Valid()
      ensures Contents() == [e]
    {
      entries[0] := e;
      nEntries := 1;
    }
  }

  /**
   * Filling a node of capacity two: both entries read back at their
   * positions, the node is full, and a third `add` throws and changes nothing.
   */
  method FillTwo(x: int, y: int) returns (first: int, second: int, full: bool, overflow: Result<()>)
    ensures first == x && second == y && full
    ensures overflow == Failure(OutOfRange)
  {
    var node := new Node<int>(2, 0);
    var r := node.Add(x);
    r := node.Add(y);
    full := node.IsFull();
    overflow := node.Add(x);
    first, second := node.entries[0], node.entries[1];
  }
}
