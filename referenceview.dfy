/**
 * `ReferenceView`: a growable list of references into another range, which
 * can be sorted without moving the referenced objects. A reference is an
 * opaque value of type `T`; comparing two references compares what they
 * refer to.
 */
module ReferenceViews {
  import opened Sorting

  class ReferenceView<T(!new)> {
    /** The references, in view order. */
    var refs: seq<T>

    /** The default constructor: an empty view. */
    constructor Empty()
      ensures refs == []
    {
      refs := [];
    }

    /** A view of every element of a range, in range order. */
    constructor Of(range: seq<T>)
      ensures refs == range
    {
      refs := [];
      new;
      Insert(range);
    }

    /** The copy constructor: a view with its own list of the same references. */
    constructor Copy(other: ReferenceView<T>)
      ensures refs == other.refs
    {
      refs := other.refs;
    }

    /** `insert(first, last)`: append a reference to every element of the range, in order. */
    method Insert(range: seq<T>)
      modifies this
      ensures refs == old(refs) + range
    {
      var i := 0;
      while i < |range|
        invariant 0 <= i <= |range|
        invariant refs == old(refs) + range[..i]
      {
        refs := refs + [range[i]];
        i := i + 1;
      }
    }

    /** `sort(compare)`: reorder the references so that what they refer to is sorted. */
    method Sort(lt: (T, T) -> bool)
      requires StrictWeakOrder(lt)
      modifies this
      ensures multiset(refs) == multiset(old(refs))
      ensures SortedBy(refs, lt)
    {
      InsertionSortSorted(refs, lt);
      refs := InsertionSort(refs, lt);
    }

    function Size(): nat
      reads this
    {
      |refs|
    }

    /** `operator[]`: the `i`th reference. */
    function At(i: nat): T
      requires i < |refs|
      reads this
    {
      refs[i]
    }
  }

  /** Sorting a view leaves a copy taken before it untouched. */
  method CopyIsIndependent(range: seq<int>) returns (copy: seq<int>)
    ensures copy == range
  {
    var view0 := new ReferenceView.Of(range);
    var view := new ReferenceView.Copy(view0);
    view0.Sort(IntGreater);
    copy := view.refs;
  }

  function IntGreater(a: int, b: int): bool { b < a }

  lemma IntGreaterIsWeakOrder()
    ensures StrictWeakOrder(IntGreater)
  {
  }
}
