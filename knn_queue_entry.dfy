/**
 * The entries of the k-nearest-neighbour priority queue (`KnnQueueEntry`)
 * and the order the queue keeps them in.
 *
 * In the source the node pointer and the object id share a union; the model
 * keeps both fields and `Greater` reads `id` only where the source does (both
 * entries at elevation 0). Distances are integers (the squared distance of
 * integer rectangles) rather than `float`.
 */
module KnnQueueEntries {

  datatype KnnQueueEntry<N> = KnnQueueEntry(node: N, id: nat, elevation: nat, distance: int)

  /** `KnnQueueEntry(id, elevation, d)`: an entry for a data object. */
  function ForObject<N>(blank: N, id: nat, elevation: nat, d: int): (e: KnnQueueEntry<N>)
    ensures e.id == id && e.elevation == elevation && e.distance == d
  {
    KnnQueueEntry(blank, id, elevation, d)
  }

  /** `KnnQueueEntry(node, elevation, d)`: an entry for a node. */
  function ForNode<N>(node: N, elevation: nat, d: int): (e: KnnQueueEntry<N>)
    ensures e.node == node && e.elevation == elevation && e.distance == d
  {
    KnnQueueEntry(node, 0, elevation, d)
  }

  /**
   * `operator>`: farther entries are greater; at equal distance two objects
   * are ordered by id, and otherwise the entry nearer the leaves (the lower
   * elevation) is greater, so that nodes leave the queue before objects.
   */
  predicate Greater<N>(x: KnnQueueEntry<N>, y: KnnQueueEntry<N>) {
    if x.distance == y.distance then
      if x.elevation == 0 && y.elevation == 0 then x.id > y.id
      else x.elevation < y.elevation
    else x.distance > y.distance
  }

  /** `operator>` is a strict order: irreflexive, asymmetric and transitive. */
  lemma GreaterIsStrictOrder<N>(x: KnnQueueEntry<N>, y: KnnQueueEntry<N>, z: KnnQueueEntry<N>)
    ensures !Greater(x, x)
    ensures Greater(x, y) ==> !Greater(y, x)
    ensures Greater(x, y) && Greater(y, z) ==> Greater(x, z)
  {
  }

  /** How two entries at the same distance compare, spelled out case by case. */
  lemma EqualDistance<N>(x: KnnQueueEntry<N>, y: KnnQueueEntry<N>)
    requires x.distance == y.distance
    ensures x.elevation < y.elevation ==> Greater(x, y) && !Greater(y, x)
    ensures x.elevation == y.elevation && x.elevation > 0 ==> !Greater(x, y) && !Greater(y, x)
    ensures x.elevation == 0 && y.elevation == 0 ==> (Greater(x, y) <==> x.id > y.id)
  {
  }

  /** A larger distance always decides, whatever the elevations and ids. */
  lemma FartherIsGreater<N>(x: KnnQueueEntry<N>, y: KnnQueueEntry<N>)
    requires x.distance > y.distance
    ensures Greater(x, y) && !Greater(y, x)
  {
  }

  /** The three cases the source's tests check, with integer distances scaled by two. */
  lemma GreaterExamples()
    ensures Greater(ForNode(0, 0, 4), ForNode(0, 0, 3))
    ensures Greater(ForNode(0, 2, 4), ForNode(0, 3, 4))
    ensures Greater(ForObject(0, 2, 0, 0), ForObject(0, 1, 0, 0))
  {
  }
}
