/**
 * The R-tree base class (`Rtree::Rtree`): the root, the height, the list of
 * allocated nodes, Guttman's range search driven by an explicit stack, and
 * the best-first k-nearest-neighbour search over a priority queue.
 *
 * The searches read the node graph below the root; here that graph is a
 * value tree (`Node`), each entry carrying a rectangle, an object id and a
 * child node. As in the source, the level decides which of the two an entry
 * means: entries at depth `height` are objects, the others point to nodes.
 */
module Rtrees {
  import opened Mbrs
  import opened KnnQueueEntries

  datatype TreeEntry = TreeEntry(mbr: Mbr, id: nat, child: Node)
  datatype Node = Node(entries: seq<TreeEntry>)

  /* ---- the tree ---- */

  /** Every rectangle in the tree below `n` has `dim` dimensions. */
  predicate Dims(n: Node, dim: nat)
    decreases n
  {
    forall i :: 0 <= i < |n.entries| ==> n.entries[i].mbr.HasDim(dim) && Dims(n.entries[i].child, dim)
  }

  /** The number of entries from position `i` of `n` on, at every level below. */
  function Size(n: Node, i: nat): (r: nat)
    decreases n, |n.entries| - i
  {
    if i >= |n.entries| then 0 else 1 + Size(n.entries[i].child, 0) + Size(n, i + 1)
  }

  /**
   * What the range search reports for the entries of `n` from position `i`
   * on, at level `depth`: for each entry meeting the box, in order, its id at
   * the leaf level, or what its child reports one level down.
   */
  function Found(n: Node, i: nat, depth: nat, height: nat, box: Mbr): seq<nat>
    requires Dims(n, |box.lo|) && box.HasDim(|box.lo|)
    decreases n, |n.entries| - i
  {
    if i >= |n.entries| then []
    else
      var e := n.entries[i];
      (if !Intersects(e.mbr, box) then []
       else if depth == height then [e.id]
       else Found(e.child, 0, depth + 1, height, box)) +
      Found(n, i + 1, depth, height, box)
  }

  /** The entries at the leaf level (depth `height`) from position `i` of `n` on, depth first. */
  function Leaves(n: Node, i: nat, depth: nat, height: nat): seq<TreeEntry>
    decreases n, |n.entries| - i
  {
    if i >= |n.entries| then []
    else
      var e := n.entries[i];
      (if depth == height then [e] else Leaves(e.child, 0, depth + 1, height)) +
      Leaves(n, i + 1, depth, height)
  }

  /** The ids of those of `leaves` whose rectangle meets the box, in order. */
  function Meeting(leaves: seq<TreeEntry>, box: Mbr): seq<nat>
    requires box.HasDim(|box.lo|) && forall i :: 0 <= i < |leaves| ==> leaves[i].mbr.HasDim(|box.lo|)
  {
    if leaves == [] then []
    else
      assert leaves[0].mbr.HasDim(|box.lo|);
      (if Intersects(leaves[0].mbr, box) then [leaves[0].id] else []) + Meeting(leaves[1..], box)
  }

  /**
   * The R-tree invariant from level `depth` down to the leaves: every entry
   * that points to a node covers the rectangles of that node's entries.
   */
  predicate Covering(n: Node, depth: nat, height: nat, dim: nat)
    requires Dims(n, dim)
    decreases n
  {
    forall i :: 0 <= i < |n.entries| && depth < height ==>
      var e := n.entries[i];
      assert e.mbr.HasDim(dim) && Dims(e.child, dim);
      (forall j :: 0 <= j < |e.child.entries| ==> Contains(e.mbr, e.child.entries[j].mbr)) &&
      Covering(e.child, depth + 1, height, dim)
  }

  /* ---- the tree object ---- */

  /** A node allocated by the tree (`new N()`): it starts empty. */
  class TreeNode {
    var size: nat

    constructor()
      ensures size == 0
    {
      size := 0;
    }
  }

  /** `Rtree<N>`: the root, the height, and every node it allocated (newest first). */
  class Rtree {
    var nodes: seq<TreeNode>
    var root: TreeNode
    var height: nat

    /** Every allocated node is recorded once, and the tree has at least one level. */
    ghost predicate Valid()
      reads this
    {
      height >= 1 && forall i, j :: 0 <= i < j < |nodes| ==> nodes[i] != nodes[j]
    }

    /** `Rtree()`: an empty root, allocated by the tree, and height 1. */
    constructor()
      ensures Valid() && height == 1 && nodes == [root] && fresh(root) && root.size == 0
    {
      var node := new TreeNode();
      nodes := [node];
      root := node;
      height := 1;
    }

    /** `allocateNode()`: a new empty node, recorded for deletion with the tree. */
    method AllocateNode() returns (node: TreeNode)
      requires Valid()
      modifies this
      ensures Valid() && fresh(node) && node.size == 0
      ensures nodes == [node] + old(nodes) && root == old(root) && height == old(height)
    {
      node := new TreeNode();
      nodes := [node] + nodes;
    }

    /** `addLevel(newRoot)`: the new root sits one level above the old one. */
    method AddLevel(newRoot: TreeNode)
      requires Valid()
      modifies this
      ensures Valid() && root == newRoot && height == old(height) + 1 && nodes == old(nodes)
    {
      root := newRoot;
      height := height + 1;
    }
  }

  /* ---- range search ---- */

  /** A frame of the search stack: a node and the position of its next entry to visit. */
  type Frame = (Node, nat)

  /** What the frames of the stack still have to report, the top frame first. */
  function Pending(stack: seq<Frame>, height: nat, box: Mbr): seq<nat>
    requires box.HasDim(|box.lo|) && StackDims(stack, |box.lo|)
  {
    if stack == [] then []
    else
      var top := stack[|stack| - 1];
      Found(top.0, top.1, |stack|, height, box) + Pending(stack[..|stack| - 1], height, box)
  }

  /** Every node on the stack has dimension `dim`. */
  predicate StackDims(stack: seq<Frame>, dim: nat) {
    forall k :: 0 <= k < |stack| ==> Dims(stack[k].0, dim)
  }

  /** The entries still below the frames of the stack. */
  function Weight(stack: seq<Frame>): nat {
    if stack == [] then 0
    else Size(stack[|stack| - 1].0, stack[|stack| - 1].1) + Weight(stack[..|stack| - 1])
  }

  /**
   * `rangeSearch(box)`: a stack holds, per level from the root down, a node
   * and how far its entries have been visited. The next entry of the top
   * frame is taken; if it meets the box, a leaf-level entry reports its id
   * and any other entry pushes its child. The result is `Found` for the root.
   */
  method RangeSearch(root: Node, height: nat, box: Mbr) returns (results: seq<nat>)
    requires height >= 1 && box.HasDim(|box.lo|) && Dims(root, |box.lo|)
    ensures results == Found(root, 0, 1, height, box)
  {
    results := [];
    var stack: seq<Frame> := [(root, 0)];
    while |stack| > 0
      invariant |stack| <= height
      invariant StackDims(stack, |box.lo|)
      invariant results + Pending(stack, height, box) == Found(root, 0, 1, height, box)
      decreases Weight(stack), |stack|
    {
      var top := stack[|stack| - 1];
      if top.1 >= |top.0.entries| {
        stack := stack[..|stack| - 1];
      } else {
        stack, results := Visit(stack, height, box, results);
      }
    }
  }

  /** One step of the range search on a top frame with entries left. */
  method Visit(stack: seq<Frame>, height: nat, box: Mbr, results: seq<nat>)
    returns (next: seq<Frame>, found: seq<nat>)
    requires 0 < |stack| <= height && box.HasDim(|box.lo|)
    requires StackDims(stack, |box.lo|)
    requires stack[|stack| - 1].1 < |stack[|stack| - 1].0.entries|
    ensures |next| <= height && StackDims(next, |box.lo|)
    ensures found + Pending(next, height, box) == results + Pending(stack, height, box)
    ensures Weight(next) < Weight(stack)
  {
    var rest := stack[..|stack| - 1];
    var (n, i) := stack[|stack| - 1];
    var e := n.entries[i];
    assert stack == rest + [(n, i)];
    VisitStack(rest, n, i, height, box);
    VisitCases(rest, n, i, height, box);
    next := rest + [(n, i + 1)];
    found := results;
    if Intersects(e.mbr, box) {
      if |stack| == height {
        found := results + [e.id];
        assert found + Pending(next, height, box) == results + ([e.id] + Pending(next, height, box));
      } else {
        next := next + [(e.child, 0)];
      }
    }
  }

  /** One step of the range search keeps the stack well dimensioned and lightens it. */
  lemma VisitStack(rest: seq<Frame>, n: Node, i: nat, height: nat, box: Mbr)
    requires box.HasDim(|box.lo|) && StackDims(rest, |box.lo|) && Dims(n, |box.lo|)
    requires i < |n.entries|
    ensures StackDims(rest + [(n, i + 1)], |box.lo|)
    ensures StackDims(rest + [(n, i + 1)] + [(n.entries[i].child, 0)], |box.lo|)
    ensures Weight(rest + [(n, i + 1)] + [(n.entries[i].child, 0)]) < Weight(rest + [(n, i)])
  {
    PushFrame(rest, (n, i), height, box);
    PushFrame(rest, (n, i + 1), height, box);
    PushFrame(rest + [(n, i + 1)], (n.entries[i].child, 0), height, box);
  }

  /** What one step of the range search does to the reports still pending, case by case. */
  lemma VisitCases(rest: seq<Frame>, n: Node, i: nat, height: nat, box: Mbr)
    requires box.HasDim(|box.lo|) && StackDims(rest, |box.lo|) && Dims(n, |box.lo|)
    requires i < |n.entries| && StackDims(rest + [(n, i + 1)], |box.lo|)
    requires StackDims(rest + [(n, i + 1)] + [(n.entries[i].child, 0)], |box.lo|)
    ensures !Intersects(n.entries[i].mbr, box) ==>
      Pending(rest + [(n, i + 1)], height, box) == Pending(rest + [(n, i)], height, box)
    ensures Intersects(n.entries[i].mbr, box) && |rest| + 1 == height ==>
      [n.entries[i].id] + Pending(rest + [(n, i + 1)], height, box) == Pending(rest + [(n, i)], height, box)
    ensures Intersects(n.entries[i].mbr, box) && |rest| + 1 != height ==>
      Pending(rest + [(n, i + 1)] + [(n.entries[i].child, 0)], height, box) == Pending(rest + [(n, i)], height, box)
  {
    var e, next := n.entries[i], rest + [(n, i + 1)];
    var depth := |rest| + 1;
    PushFrame(rest, (n, i), height, box);
    PushFrame(rest, (n, i + 1), height, box);
    var later, below := Found(n, i + 1, depth, height, box), Pending(rest, height, box);
    if Intersects(e.mbr, box) && depth != height {
      PushFrame(next, (e.child, 0), height, box);
      var child := Found(e.child, 0, depth + 1, height, box);
      assert Found(n, i, depth, height, box) == child + later;
      assert (child + later) + below == child + (later + below);
    } else if Intersects(e.mbr, box) {
      assert Found(n, i, depth, height, box) == [e.id] + later;
      assert ([e.id] + later) + below == [e.id] + (later + below);
    }
  }

  /** A frame pushed on the stack reports first and weighs on top of the others. */
  lemma PushFrame(stack: seq<Frame>, f: Frame, height: nat, box: Mbr)
    requires box.HasDim(|box.lo|) && StackDims(stack, |box.lo|) && Dims(f.0, |box.lo|)
    ensures StackDims(stack + [f], |box.lo|)
    ensures Pending(stack + [f], height, box) == Found(f.0, f.1, |stack| + 1, height, box) + Pending(stack, height, box)
    ensures Weight(stack + [f]) == Size(f.0, f.1) + Weight(stack)
  {
    var s := stack + [f];
    assert s[..|stack|] == stack && s[|stack|] == f;
    assert StackDims(s, |box.lo|) by {
      forall k | 0 <= k < |s| ensures Dims(s[k].0, |box.lo|) {
        if k < |stack| { assert s[k] == stack[k]; }
      }
    }
  }

  /* ---- what the range search reports ---- */

  lemma {:induction false} MeetingAppend(a: seq<TreeEntry>, b: seq<TreeEntry>, box: Mbr)
    requires box.HasDim(|box.lo|)
    requires forall i :: 0 <= i < |a| ==> a[i].mbr.HasDim(|box.lo|)
    requires forall i :: 0 <= i < |b| ==> b[i].mbr.HasDim(|box.lo|)
    ensures Meeting(a + b, box) == Meeting(a, box) + Meeting(b, box)
  {
    if a != [] {
      assert (a + b)[0] == a[0] && (a + b)[1..] == a[1..] + b;
      MeetingAppend(a[1..], b, box);
      var head := if Intersects(a[0].mbr, box) then [a[0].id] else [];
      assert Meeting(a + b, box) == head + Meeting(a[1..] + b, box);
      assert Meeting(a, box) == head + Meeting(a[1..], box);
    } else {
      assert a + b == b;
    }
  }

  /** Leaf-level entries of a well-dimensioned tree have the tree's dimension. */
  lemma {:induction false} LeavesDims(n: Node, i: nat, depth: nat, height: nat, dim: nat)
    requires Dims(n, dim)
    ensures forall k :: 0 <= k < |Leaves(n, i, depth, height)| ==> Leaves(n, i, depth, height)[k].mbr.HasDim(dim)
    decreases n, |n.entries| - i
  {
    if i < |n.entries| {
      LeavesDims(n.entries[i].child, 0, depth + 1, height, dim);
      LeavesDims(n, i + 1, depth, height, dim);
    }
  }

  /** In a covering tree, every leaf-level entry lies inside any rectangle that covers the entries of `n`. */
  lemma {:induction false} LeavesInside(n: Node, i: nat, depth: nat, height: nat, outer: Mbr)
    requires outer.HasDim(|outer.lo|) && Dims(n, |outer.lo|) && Covering(n, depth, height, |outer.lo|)
    requires depth <= height
    requires forall k :: i <= k < |n.entries| ==> Contains(outer, n.entries[k].mbr)
    ensures forall k :: 0 <= k < |Leaves(n, i, depth, height)| ==> Leaves(n, i, depth, height)[k].mbr.HasDim(|outer.lo|)
    ensures forall k :: 0 <= k < |Leaves(n, i, depth, height)| ==>
      SameDim(outer, Leaves(n, i, depth, height)[k].mbr) && Contains(outer, Leaves(n, i, depth, height)[k].mbr)
    decreases n, |n.entries| - i
  {
    LeavesDims(n, i, depth, height, |outer.lo|);
    if i < |n.entries| {
      var e := n.entries[i];
      if depth < height {
        forall j | 0 <= j < |e.child.entries| ensures Contains(outer, e.child.entries[j].mbr) {
          ContainsTransitive(outer, e.mbr, e.child.entries[j].mbr);
        }
        LeavesInside(e.child, 0, depth + 1, height, outer);
      }
      LeavesInside(n, i + 1, depth, height, outer);
    }
  }

  lemma ContainsTransitive(a: Mbr, b: Mbr, c: Mbr)
    requires SameDim(a, b) && SameDim(b, c) && Contains(a, b) && Contains(b, c)
    ensures Contains(a, c)
  {
  }

  /** A rectangle that meets the box makes every rectangle containing it meet the box too. */
  lemma MeetsThroughCover(outer: Mbr, inner: Mbr, box: Mbr)
    requires SameDim(outer, inner) && SameDim(inner, box) && Contains(outer, inner)
    requires Intersects(inner, box)
    ensures Intersects(outer, box)
  {
  }

  /** None of the given entries meets the box when a rectangle containing them all misses it. */
  lemma {:induction false} NoneMeeting(leaves: seq<TreeEntry>, outer: Mbr, box: Mbr)
    requires box.HasDim(|box.lo|) && outer.HasDim(|box.lo|)
    requires forall i :: 0 <= i < |leaves| ==> leaves[i].mbr.HasDim(|box.lo|) && Contains(outer, leaves[i].mbr)
    requires !Intersects(outer, box)
    ensures Meeting(leaves, box) == []
  {
    if leaves != [] {
      if Intersects(leaves[0].mbr, box) {
        MeetsThroughCover(outer, leaves[0].mbr, box);
      }
      NoneMeeting(leaves[1..], outer, box);
    }
  }

  /**
   * In a covering tree the range search reports exactly the ids of the
   * leaf-level entries whose rectangle meets the box, in depth-first order:
   * skipping a child whose covering rectangle misses the box loses nothing.
   */
  lemma {:induction false} FoundIsMeetingLeaves(n: Node, i: nat, depth: nat, height: nat, box: Mbr)
    requires box.HasDim(|box.lo|) && Dims(n, |box.lo|) && Covering(n, depth, height, |box.lo|)
    requires depth <= height
    ensures forall k :: 0 <= k < |Leaves(n, i, depth, height)| ==> Leaves(n, i, depth, height)[k].mbr.HasDim(|box.lo|)
    ensures Found(n, i, depth, height, box) == Meeting(Leaves(n, i, depth, height), box)
    decreases n, |n.entries| - i
  {
    LeavesDims(n, i, depth, height, |box.lo|);
    if i < |n.entries| {
      var e := n.entries[i];
      var below := if depth == height then [e] else Leaves(e.child, 0, depth + 1, height);
      LeavesDims(e.child, 0, depth + 1, height, |box.lo|);
      LeavesDims(n, i + 1, depth, height, |box.lo|);
      MeetingAppend(below, Leaves(n, i + 1, depth, height), box);
      FoundIsMeetingLeaves(n, i + 1, depth, height, box);
      if depth < height {
        FoundIsMeetingLeaves(e.child, 0, depth + 1, height, box);
        if !Intersects(e.mbr, box) {
          LeavesInside(e.child, 0, depth + 1, height, e.mbr);
          NoneMeeting(below, e.mbr, box);
        }
      }
    }
  }

  /* ---- k-nearest-neighbour search ---- */

  /** The ids of the given entries, in order. */
  function Ids(es: seq<TreeEntry>): (r: seq<nat>)
    ensures |r| == |es| && forall i :: 0 <= i < |es| ==> r[i] == es[i].id
  {
    seq(|es|, i requires 0 <= i < |es| => es[i].id)
  }

  /** The objects a queue entry stands for: itself at elevation 0, else every object below its node. */
  function EntryIds(q: KnnQueueEntry<Node>): multiset<nat> {
    if q.elevation == 0 then multiset{q.id} else multiset(Ids(Leaves(q.node, 0, 1, q.elevation)))
  }

  /** The objects the whole queue stands for. */
  function QueueIds(queue: seq<KnnQueueEntry<Node>>): multiset<nat> {
    if queue == [] then multiset{} else EntryIds(queue[0]) + QueueIds(queue[1..])
  }

  /** How much work a queue entry can still cause. */
  function EntryWeight(q: KnnQueueEntry<Node>): nat {
    if q.elevation == 0 then 1 else 1 + Size(q.node, 0)
  }

  function QueueWeight(queue: seq<KnnQueueEntry<Node>>): nat {
    if queue == [] then 0 else EntryWeight(queue[0]) + QueueWeight(queue[1..])
  }

  /** Every node in the queue has the dimension of the reference point. */
  predicate QueueDims(queue: seq<KnnQueueEntry<Node>>, dim: nat) {
    forall j :: 0 <= j < |queue| ==> queue[j].elevation > 0 ==> Dims(queue[j].node, dim)
  }

  /**
   * `knnSearch(k, point)`: a priority queue starts with the root at the tree's
   * height. While it is not empty and fewer than `k` ids were found, the
   * smallest entry (`std::greater`) leaves the queue: an object is reported,
   * a node at elevation 1 queues its objects and any other node its children,
   * each at its squared distance from the point. At most `k` ids come back,
   * each an object of the tree; when fewer than `k` come back, every object of
   * the tree was reported.
   */
  method KnnSearch(root: Node, height: nat, k: nat, reference: Mbr) returns (results: seq<nat>)
    requires height >= 1 && reference.HasDim(|reference.lo|) && Dims(root, |reference.lo|)
    ensures |results| <= k
    ensures multiset(results) <= multiset(Ids(Leaves(root, 0, 1, height)))
    ensures |results| < k ==> multiset(results) == multiset(Ids(Leaves(root, 0, 1, height)))
  {
    ghost var all := multiset(Ids(Leaves(root, 0, 1, height)));
    var queue := [ForNode(root, height, 0)];
    assert queue[1..] == [];
    results := [];
    while |queue| > 0 && |results| < k
      invariant |results| <= k && QueueDims(queue, |reference.lo|)
      invariant multiset(results) + QueueIds(queue) == all
      decreases QueueWeight(queue)
    {
      queue, results := Pop(queue, reference, results);
    }
  }

  /** One round of the search: the top entry leaves the queue and is reported or expanded. */
  method Pop(queue: seq<KnnQueueEntry<Node>>, reference: Mbr, results: seq<nat>)
    returns (next: seq<KnnQueueEntry<Node>>, found: seq<nat>)
    requires |queue| > 0 && reference.HasDim(|reference.lo|) && QueueDims(queue, |reference.lo|)
    ensures QueueDims(next, |reference.lo|) && |found| <= |results| + 1
    ensures multiset(found) + QueueIds(next) == multiset(results) + QueueIds(queue)
    ensures QueueWeight(next) < QueueWeight(queue)
  {
    var t := Top(queue);
    var top := queue[t];
    var rest := queue[..t] + queue[t + 1..];
    WithoutIds(queue, t);
    WithoutWeight(queue, t);
    assert QueueDims(rest, |reference.lo|) by {
      forall j | 0 <= j < |rest| ensures rest[j] in queue {
        if j < t { assert rest[j] == queue[j]; } else { assert rest[j] == queue[j + 1]; }
      }
    }
    if top.elevation == 0 {
      found := results + [top.id];
      next := rest;
    } else {
      found := results;
      next := Expand(rest, top, reference);
    }
  }

  /** The top of the priority queue: an entry no other entry is smaller than. */
  method Top(queue: seq<KnnQueueEntry<Node>>) returns (t: nat)
    requires |queue| > 0
    ensures t < |queue| && forall j :: 0 <= j < |queue| ==> !Greater(queue[t], queue[j])
  {
    t := 0;
    for i := 1 to |queue|
      invariant t < i && forall j :: 0 <= j < i ==> !Greater(queue[t], queue[j])
    {
      if Greater(queue[t], queue[i]) {
        forall j | 0 <= j < i ensures !Greater(queue[i], queue[j]) {
          GreaterIsStrictOrder(queue[t], queue[i], queue[j]);
        }
        GreaterIsStrictOrder(queue[i], queue[i], queue[i]);
        t := i;
      }
    }
  }

  /**
   * A node taken from the queue puts each of its entries back: at elevation
   * 1 as objects, otherwise as nodes one level down, with the entry's squared
   * distance from the point. The objects the queue stands for do not change.
   */
  method Expand(queue: seq<KnnQueueEntry<Node>>, top: KnnQueueEntry<Node>, reference: Mbr)
    returns (next: seq<KnnQueueEntry<Node>>)
    requires top.elevation > 0 && reference.HasDim(|reference.lo|) && Dims(top.node, |reference.lo|)
    requires QueueDims(queue, |reference.lo|)
    ensures QueueDims(next, |reference.lo|)
    ensures QueueIds(next) == QueueIds(queue) + EntryIds(top)
    ensures QueueWeight(next) < QueueWeight(queue) + EntryWeight(top)
  {
    var node, el := top.node, top.elevation;
    next := queue;
    for i := 0 to |node.entries|
      invariant QueueDims(next, |reference.lo|)
      invariant QueueIds(next) + multiset(Ids(Leaves(node, i, 1, el))) ==
        QueueIds(queue) + multiset(Ids(Leaves(node, 0, 1, el)))
      invariant QueueWeight(next) + Size(node, i) <= QueueWeight(queue) + Size(node, 0)
    {
      next := Push(next, node, i, el, reference);
    }
  }

  /** Queue the entry at position `i` of a node taken from the queue at elevation `el`. */
  method Push(queue: seq<KnnQueueEntry<Node>>, node: Node, i: nat, el: nat, reference: Mbr)
    returns (next: seq<KnnQueueEntry<Node>>)
    requires i < |node.entries| && el > 0 && reference.HasDim(|reference.lo|) && Dims(node, |reference.lo|)
    requires QueueDims(queue, |reference.lo|)
    ensures QueueDims(next, |reference.lo|)
    ensures QueueIds(next) + multiset(Ids(Leaves(node, i + 1, 1, el))) ==
      QueueIds(queue) + multiset(Ids(Leaves(node, i, 1, el)))
    ensures QueueWeight(next) + Size(node, i + 1) <= QueueWeight(queue) + Size(node, i)
  {
    var q := EntryFor(node.entries[i], el, Distance2(node.entries[i].mbr, reference));
    PushEntry(node, i, el, q, |reference.lo|);
    QueueAppend(queue, q);
    AppendDims(queue, q, |reference.lo|);
    next := queue + [q];
  }

  lemma AppendDims(queue: seq<KnnQueueEntry<Node>>, q: KnnQueueEntry<Node>, dim: nat)
    requires QueueDims(queue, dim) && (q.elevation > 0 ==> Dims(q.node, dim))
    ensures QueueDims(queue + [q], dim)
  {
  }

  /** The queue entry for position `i` of a node stands for that position's objects, and weighs less. */
  lemma PushEntry(node: Node, i: nat, el: nat, q: KnnQueueEntry<Node>, dim: nat)
    requires i < |node.entries| && el > 0 && Dims(node, dim)
    requires q == EntryFor(node.entries[i], el, q.distance)
    ensures EntryIds(q) + multiset(Ids(Leaves(node, i + 1, 1, el))) == multiset(Ids(Leaves(node, i, 1, el)))
    ensures EntryWeight(q) + Size(node, i + 1) <= Size(node, i)
    ensures q.elevation > 0 ==> Dims(q.node, dim)
  {
    var e := node.entries[i];
    var below := if el == 1 then [e] else Leaves(e.child, 0, 2, el);
    assert Leaves(node, i, 1, el) == below + Leaves(node, i + 1, 1, el);
    IdsAppend(below, Leaves(node, i + 1, 1, el));
    assert Size(node, i) == 1 + Size(e.child, 0) + Size(node, i + 1);
  }

  /**
   * The queue entry for entry `e` of a node at elevation `el`: the object at
   * elevation 1, otherwise the child one level down.
   */
  function EntryFor(e: TreeEntry, el: nat, d: int): (q: KnnQueueEntry<Node>)
    requires el > 0
    ensures q.distance == d && q.elevation == el - 1
    ensures q.elevation == 0 ==> q.id == e.id
    ensures q.elevation > 0 ==> q.node == e.child
    ensures EntryIds(q) == multiset(Ids(if el == 1 then [e] else Leaves(e.child, 0, 2, el)))
  {
    if el == 1 then ForObject(Node([]), e.id, 0, d)
    else
      LeavesShift(e.child, 0, 1, el - 1);
      ForNode(e.child, el - 1, d)
  }

  /** Leaves counted from level `depth + 1` with height `height + 1` are those counted from `depth` with `height`. */
  lemma {:induction false} LeavesShift(n: Node, i: nat, depth: nat, height: nat)
    ensures Leaves(n, i, depth + 1, height + 1) == Leaves(n, i, depth, height)
    decreases n, |n.entries| - i
  {
    if i < |n.entries| {
      LeavesShift(n.entries[i].child, 0, depth + 1, height);
      LeavesShift(n, i + 1, depth, height);
    }
  }

  lemma IdsAppend(a: seq<TreeEntry>, b: seq<TreeEntry>)
    ensures Ids(a + b) == Ids(a) + Ids(b)
  {
  }

  lemma {:induction false} QueueAppend(queue: seq<KnnQueueEntry<Node>>, q: KnnQueueEntry<Node>)
    ensures QueueIds(queue + [q]) == QueueIds(queue) + EntryIds(q)
    ensures QueueWeight(queue + [q]) == QueueWeight(queue) + EntryWeight(q)
  {
    if queue != [] {
      assert (queue + [q])[1..] == queue[1..] + [q];
      QueueAppend(queue[1..], q);
    } else {
      assert ([q])[1..] == [];
    }
  }

  lemma {:induction false} ConcatIds(a: seq<KnnQueueEntry<Node>>, b: seq<KnnQueueEntry<Node>>)
    ensures QueueIds(a + b) == QueueIds(a) + QueueIds(b)
  {
    if a != [] {
      assert (a + b)[1..] == a[1..] + b;
      ConcatIds(a[1..], b);
    } else {
      assert a + b == b;
    }
  }

  lemma {:induction false} ConcatWeight(a: seq<KnnQueueEntry<Node>>, b: seq<KnnQueueEntry<Node>>)
    ensures QueueWeight(a + b) == QueueWeight(a) + QueueWeight(b)
  {
    if a != [] {
      assert (a + b)[1..] == a[1..] + b;
      ConcatWeight(a[1..], b);
    } else {
      assert a + b == b;
    }
  }

  /** Taking the entry at `t` out of the queue takes exactly its objects out. */
  lemma WithoutIds(queue: seq<KnnQueueEntry<Node>>, t: nat)
    requires t < |queue|
    ensures QueueIds(queue) == QueueIds(queue[..t] + queue[t + 1..]) + EntryIds(queue[t])
  {
    var a, b := queue[..t], queue[t + 1..];
    var tail := [queue[t]] + b;
    assert queue == a + tail;
    assert tail[0] == queue[t] && tail[1..] == b;
    assert QueueIds(tail) == EntryIds(queue[t]) + QueueIds(b);
    ConcatIds(a, tail);
    ConcatIds(a, b);
  }

  /** Taking the entry at `t` out of the queue takes exactly its weight out. */
  lemma WithoutWeight(queue: seq<KnnQueueEntry<Node>>, t: nat)
    requires t < |queue|
    ensures QueueWeight(queue) == QueueWeight(queue[..t] + queue[t + 1..]) + EntryWeight(queue[t])
  {
    var a, b := queue[..t], queue[t + 1..];
    var tail := [queue[t]] + b;
    assert queue == a + tail;
    assert tail[0] == queue[t] && tail[1..] == b;
    assert QueueWeight(tail) == EntryWeight(queue[t]) + QueueWeight(b);
    ConcatWeight(a, tail);
    ConcatWeight(a, b);
  }
}
