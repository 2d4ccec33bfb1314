# spatial-benchmarker core in Dafny

This project models the core of spatial-benchmarker, a benchmark for spatial
indexes. It covers the R-tree family's building blocks:

- minimum bounding rectangles and the benchmark's axis-aligned boxes;
- the selection helpers `argmin` and `min_value`;
- the pair view (`CombinationsView`) and the candidate splits (`SplitSet`);
- the reference view and the Hilbert curve mapping;
- the node and entry classes;
- the insertion and search rules of the Hilbert and quadratic R-trees;
- the k-nearest-neighbour queue order;
- the flat scanning index;
- three small pieces of plumbing: the `/proc/self/maps` line parser, the
  console progress bar and the SQL insert-statement builder;
- the parameter hill climber.

Coordinates, volumes and distances are integers. Each value type of the
source is a `datatype`. Each object whose fields the source updates in place
is a `class` whose methods say what they change. Loops that update state
are `while`/`for` loops with invariants, proved against specification
functions. The per-dimension folds of Mbr.hpp and the Python comprehensions
are recursive functions, quantifiers or sequence comprehensions.
Lemmas state the properties the source promises. Where a unit test
expects something the code does not do, the model follows the code (see
"Left out").

One file per source unit:

- `mbr.dfy`, `box.dfy` and `algorithm.dfy`: rectangles, boxes, argmin;
- `combinations.dfy`, `splitset.dfy`, `referenceview.dfy` and `sorting.dfy`:
  the views and the sort they rely on;
- `hilbert_curve.dfy`: the curve; `hilbert_table.dfy`: its first 4 x 4 cells
  worked out;
- `bench_node.dfy`, `pointer_array_node.dfy`, `entry.dfy` and
  `hilbert_entry.dfy`: nodes and entries;
- `hilbert_rtree.dfy`, `quadratic_rtree.dfy`, `rtree.dfy` and
  `knn_queue_entry.dfy`: tree rules and searches;
- `scanning.dfy`: the scanning index;
- `memory_region.dfy`, `progress_logger.dfy`, `database.dfy` and
  `optimize.dfy`: the maps parser, the progress bar, the SQL builder and the
  climber;
- `arith.dfy` and `wrappers.dfy`: shared arithmetic facts and Option/Result.

## Model

| member | source | states |
|---|---|---|
| Mbrs.Union | src/indexes/rtree/Mbr.hpp:82-92 | `a + b` has the operands' dimension and contains both of them |
| Mbrs.UnionIsLeast | src/indexes/rtree/Mbr.hpp:76-92 | any rectangle containing both operands contains `a + b`, so the sum is the smallest such rectangle |
| Mbrs.UnionProper | src/indexes/rtree/Mbr.hpp:82-92 | the sum of proper rectangles (lo <= hi everywhere) is proper |
| Mbrs.Intersection | src/indexes/rtree/Mbr.hpp:138-150 | only defined for intersecting rectangles (the source asserts it); the result lies in both operands and is proper when they are |
| Mbrs.IntersectionIsGreatest | src/indexes/rtree/Mbr.hpp:138-150 | a rectangle lies in both operands if and only if it lies in their intersection |
| Mbrs.IntersectsSymmetric | src/indexes/rtree/Mbr.test.cpp:107-111 | `intersects` gives the same answer both ways round |
| Mbrs.IntersectsReflexive | src/indexes/rtree/Mbr.test.cpp:124-127 | a proper rectangle intersects itself |
| Mbrs.IntersectsExamples | src/indexes/rtree/Mbr.test.cpp:95-128 | the unit test's cases: overlapping boxes meet, touching corners meet, distant boxes do not |
| Mbrs.IntersectionComplexity | src/indexes/rtree/Mbr.hpp:171-190 | the number of dimensions in which one rectangle cuts the other lies in [0, D] |
| Mbrs.IntersectionComplexityZeroIffContains | src/indexes/rtree/Mbr.hpp:159-190 | the complexity is 0 exactly when the first rectangle contains the second |
| Mbrs.DistanceAlong | src/indexes/rtree/Mbr.hpp:221-230 | the gap along one dimension is never negative, and is 0 exactly when the extents overlap or touch there |
| Mbrs.Distance2Properties | src/indexes/rtree/Mbr.hpp:199-230 | the squared distance is symmetric and non-negative, and is 0 exactly when the rectangles intersect |
| Mbrs.MeasureExamples | src/indexes/rtree/Mbr.hpp:104-111 | a 2 x 2 square has perimeter 4 (the sum of extents) and volume 4; a 2 x 3 box has volume 6 |
| Mbrs.MeasureMonotone | src/indexes/rtree/Mbr.hpp:243-252 | volume and perimeter are non-negative on proper rectangles and never smaller for a containing rectangle |
| Mbrs.DeltaNonNegative | src/indexes/rtree/Mbr.hpp:298-301 | including another proper rectangle never lowers the measure |
| Mbrs.DeltaOfContained | src/indexes/rtree/Mbr.hpp:289-301 | including a rectangle that is already covered leaves the measure unchanged |
| Mbrs.UnionOfContained | src/indexes/rtree/Mbr.hpp:289-301 | adding a covered rectangle to a rectangle gives that rectangle back |
| Mbrs.UnionSymmetric | src/indexes/rtree/Mbr.hpp:353-362 | the sum of two rectangles does not depend on their order |
| Mbrs.Overlap | src/indexes/rtree/Mbr.hpp:311-318 | the overlap is 0 for rectangles that do not meet; for proper ones it is at most either operand's measure |
| Mbrs.DeltaOverlap | src/indexes/rtree/Mbr.hpp:329-350 | the overlap enlargement is 0 when the enlarged rectangle does not meet the other one |
| Mbrs.DeltaOverlapNonNegative | src/indexes/rtree/Mbr.hpp:329-350 | for proper rectangles the overlap with another rectangle never shrinks when the rectangle grows |
| Mbrs.Waste | src/indexes/rtree/Mbr.hpp:353-362 | the waste plus both volumes is the volume of the sum; for proper rectangles it is never below minus either volume; when the first covers the second it is exactly minus the second's volume |
| Mbrs.WasteSymmetric | src/indexes/rtree/Mbr.hpp:353-362 | the waste of a pair is the same in either order |
| Boxes.Box.Empty | src/common/Box.cpp:23-26 | `Box(dimension)` gives the valid degenerate box at the origin with that dimension |
| Boxes.Box.New | src/common/Box.cpp:3-20 | logic_error exactly when the points' dimensions differ; otherwise the lower corner is the per-dimension minimum and the upper corner the maximum |
| Boxes.Box.Contains | src/common/Box.cpp:52-68 | invalid_argument exactly when the dimensions differ; otherwise true iff every coordinate lies between the corners, bounds included |
| Boxes.Box.Intersects | src/common/Box.cpp:71-91 | invalid_argument exactly when the dimensions differ; otherwise the rectangle intersection test |
| Boxes.Box.GetVolumeAsWritten | src/common/Box.cpp:94-103 | the product starts at 0, so the result is 0 for every box |
| Boxes.Box.GetVolume | src/common/Box.cpp:94-103 | with the product started at 1, the result is the rectangle volume, never negative |
| Boxes.Box.Include | src/common/Box.cpp:106-112 | each corner coordinate becomes the min (lower) or max (upper) of the two boxes; for equal dimensions the box becomes their sum |
| Boxes.VolumeCounterexample | src/common/Box.cpp:94-103 | the box (0,0)-(2,3) has volume 6 but the as-written `getVolume` returns 0 |
| Algorithms.FirstMinUnique | src/indexes/rtree/Algorithm.hpp:14-46 | under a strict total order at most one position is the first minimum |
| Algorithms.Argmin | src/indexes/rtree/Algorithm.hpp:19-46 | the end position exactly for an empty range; otherwise the first element of least key: earlier keys are strictly larger, later ones not smaller |
| Algorithms.MinValue | src/indexes/rtree/Algorithm.hpp:52-77 | for a non-empty range, a key of some element that no element's key is below |
| Algorithms.IntLessIsOrder | src/indexes/rtree/Algorithm.hpp:37 | `<` on integers is a strict total order |
| Algorithms.PairLessIsOrder | src/indexes/rtree/QuadraticRtree.hpp:43-55 | lexicographic `<` on integer pairs, as `std::tuple` compares them, is a strict total order |
| Combinations.Row | src/indexes/rtree/CombinationsView.hpp:42-48 | the pairs one first position yields, in order of the second position |
| Combinations.LexPairsMembership | src/indexes/rtree/CombinationsView.hpp:35-59 | the view yields the pair of positions (i, j) if and only if lo <= i < j < last |
| Combinations.LexPairsIncreasing | src/indexes/rtree/CombinationsView.hpp:35-59 | the pairs come in strictly increasing lexicographic order, so none repeats |
| Combinations.LexPairsCount | src/indexes/rtree/CombinationsView.test.cpp:6-30 | n elements give n (n - 1) / 2 pairs |
| Combinations.CombinationsIterator.IncrementAsWritten | src/indexes/rtree/CombinationsView.hpp:35-59 | `operator++` as written: the second position advances; at the end the first advances and the second follows it, and the first advances once more only when that lands on the end |
| Combinations.CombinationsIterator.Increment | src/indexes/rtree/CombinationsView.hpp:35-59 | the corrected `operator++` moves to the next pair of the enumeration, or to `end()` exactly when none is left |
| Combinations.CombinationsIterator.Begin | src/indexes/rtree/CombinationsView.hpp:27-33 | with the corrected increment, `begin()` is `end()` exactly when there are no pairs, and otherwise points at the first pair |
| Combinations.CombinationsIterator.BeginAsWritten | src/indexes/rtree/CombinationsView.hpp:27-33 | `begin()` as written: for a one-element range it stops at (last, last + 1), which is not `end()` |
| Combinations.Pairs | src/indexes/rtree/CombinationsView.hpp:94-102 | iterating from `begin()` to `end()` collects exactly the lexicographic enumeration of pairs |
| Combinations.OneElementCounterexample | src/indexes/rtree/CombinationsView.hpp:27-59 | a range of one element has no pairs, yet the as-written `begin()` is at (1, 2) rather than at `end()` (1, 1) |
| Sorting.Insert | src/indexes/rtree/ReferenceView.hpp:119-129 | inserting into a list keeps its elements and adds exactly the new one |
| Sorting.InsertShape | src/indexes/rtree/ReferenceView.hpp:119-129 | the inserted element goes in at its insertion position, the rest keep their order |
| Sorting.InsertSorted | src/indexes/rtree/ReferenceView.hpp:119-129 | under a strict weak order, inserting into a sorted list gives a sorted list |
| Sorting.InsertionSort | src/indexes/rtree/ReferenceView.hpp:119-129 | the sort that stands for `std::sort` is a permutation of its input |
| Sorting.InsertionSortSorted | src/indexes/rtree/ReferenceView.hpp:119-129 | under a strict weak order, the sort's result is sorted |
| Sorting.IntLessIsWeakOrder | src/indexes/rtree/SplitSet.hpp:277-306 | `<` on integers is a strict weak order |
| ReferenceViews.ReferenceView.Empty | src/indexes/rtree/ReferenceView.hpp:102-105 | the default view is empty |
| ReferenceViews.ReferenceView.Of | src/indexes/rtree/ReferenceView.hpp:95-99 | a view of a range refers to its elements in range order |
| ReferenceViews.ReferenceView.Copy | src/indexes/rtree/ReferenceView.test.cpp:49-56 | a copy refers to the same elements as the original |
| ReferenceViews.ReferenceView.Insert | src/indexes/rtree/ReferenceView.hpp:108-116 | inserting a range appends its elements in order |
| ReferenceViews.ReferenceView.Sort | src/indexes/rtree/ReferenceView.hpp:119-129 | sorting permutes the view into order under the comparison |
| ReferenceViews.CopyIsIndependent | src/indexes/rtree/ReferenceView.test.cpp:49-71 | sorting the original view leaves a copy taken before it in range order |
| ReferenceViews.IntGreaterIsWeakOrder | src/indexes/rtree/ReferenceView.test.cpp:59-61 | the test's descending comparison is a strict weak order |
| SplitSets.PointsPerOrder | src/indexes/rtree/SplitSet.hpp:256-260 | with n >= 2m entries there are n - 2m + 1 >= 1 split points per sort order |
| SplitSets.DecodeEncode | src/indexes/rtree/SplitSet.hpp:256-274 | candidate number 2kd + ks + j decodes to dimension d, sort order s and split point m + j, so the numbering enumerates each (dimension, order, split point) once |
| SplitSets.PositionFacts | src/indexes/rtree/SplitSet.hpp:133-150 | from the first candidate of dimension d0 to that of e, candidate (d, s, j) stands at a position inside the range and has number 2kd + ks + j |
| SplitSets.CandidateDistance | src/indexes/rtree/SplitSet.hpp:133-150 | the first candidates of dimensions a and b are 2k(b - a) apart |
| SplitSets.SplitPointBounds | src/indexes/rtree/SplitSet.hpp:256-260 | every split leaves at least m entries on each side |
| SplitSets.KeyLessIsWeakOrder | src/indexes/rtree/SplitSet.hpp:277-306 | the sort key comparison (top then bottom, or bottom then top, of one dimension) is a strict weak order |
| SplitSets.Split.Groups | src/indexes/rtree/Split.hpp:55-70 | the two groups of a split are the sorted entries cut at the split point |
| SplitSets.EnumerationComplete | src/indexes/rtree/SplitSet.hpp:133-150 | a list whose i-th element is the split of candidate i holds, for every dimension, sort order and split point, the split cutting the entries sorted for it |
| SplitSets.SplitIterator.Sort | src/indexes/rtree/SplitSet.hpp:277-306 | the view is permuted into the candidate's order, and left alone past the last dimension |
| SplitSets.SplitIterator.constructor | src/indexes/rtree/SplitSet.hpp:170-186 | the iterator starts at the first candidate of its dimension with the view sorted for it |
| SplitSets.SplitIterator.Increment | src/indexes/rtree/SplitSet.hpp:210-239 | the next candidate, its view sorted for it and the current split describing it |
| SplitSets.SplitSet.constructor | src/indexes/rtree/SplitSet.hpp:124-130 | the set holds the entries of both ranges and is not restricted |
| SplitSets.SplitSet.RestrictTo | src/indexes/rtree/SplitSet.hpp:153-158 | only splits across the given dimension are enumerated afterwards |
| SplitSets.SplitSet.Splits | src/indexes/rtree/SplitSet.hpp:133-150 | iterating from `begin()` to `end()` yields 2(n - 2m + 1) splits per dimension considered, every (dimension, order, split point) exactly where the numbering puts it, each over the set's entries sorted for it |
| HilbertCurves.Xor | src/indexes/rtree/HilbertCurve.hpp:78 | the bitwise exclusive or of two chunks keeps their width |
| HilbertCurves.PopCountIsMultiplicity | src/indexes/rtree/HilbertCurve.hpp:90 | `count()` is the number of set bits of the chunk |
| HilbertCurves.RotateRightIndex | src/indexes/rtree/HilbertCurve.hpp:111-115 | bit i of the rotated chunk is bit (i + r) mod D of the original |
| HilbertCurves.RotateRightPopCount | src/indexes/rtree/HilbertCurve.hpp:111-115 | rotating a chunk keeps its number of set bits |
| HilbertCurves.LeftXor | src/indexes/rtree/HilbertCurve.hpp:117-135 | bit i of the result is the exclusive or of bits i and above of the input |
| HilbertCurves.FirstChange | src/indexes/rtree/HilbertCurve.hpp:147-151 | the scan for the first bit differing from bit 0 never moves backwards |
| HilbertCurves.FirstChangeFacts | src/indexes/rtree/HilbertCurve.hpp:147-151 | the scan stops at the first bit, from its start, that differs from bit 0, or at the width |
| HilbertCurves.PrincipalIsMod | src/indexes/rtree/HilbertCurve.hpp:145-154 | the principal position is where the scan stops, taken modulo the width |
| HilbertCurves.PrincipalCharacterization | src/indexes/rtree/HilbertCurve.hpp:137-154 | the position is below the width; it is 0 exactly when all bits are equal, and otherwise the first bit after bit 0 that differs from it |
| HilbertCurves.PrincipalPosition | src/indexes/rtree/HilbertCurve.hpp:145-154 | the loop computes the principal position |
| HilbertCurves.ToNat | src/indexes/rtree/HilbertCurve.hpp:85 | `to_ullong()` of a chunk of D bits is below 2^D |
| HilbertCurves.CapacityIsPow2 | src/indexes/rtree/HilbertCurve.hpp:84-85 | i rounds of D bits can express 2^(D i) values |
| HilbertCurves.Rounds | src/indexes/rtree/HilbertCurve.hpp:62-96 | after i rounds the rotation is below D, the mirror has D bits and the result has at most D i bits |
| HilbertCurves.RoundResultBound | src/indexes/rtree/HilbertCurve.hpp:84-85 | shifting in one chunk keeps the result within D more bits |
| HilbertCurves.HilbertValueBound | src/indexes/rtree/HilbertCurve.hpp:54-98 | every Hilbert value of a grid with `order` bits per dimension is below 2^(D order) |
| HilbertCurves.ExtractChunk | src/indexes/rtree/HilbertCurve.hpp:64-74 | chunk bit D - d - 1 is the round's bit of coordinate d |
| HilbertCurves.Transform | src/indexes/rtree/HilbertCurve.hpp:77-95 | one round of the mapping loop computes the round function of the specification |
| HilbertCurves.Map | src/indexes/rtree/HilbertCurve.hpp:39-99 | the mapping loop computes the Hilbert value of the grid point |
| HilbertTable.FourByFour | src/indexes/rtree/HilbertCurve.test.cpp:47-70 | on the 4 x 4 grid the k-th cell of the test's table has Hilbert value k |
| HilbertTable.GridValue | src/indexes/rtree/HilbertCurve.hpp:39-99 | on the 4 x 4 grid the value depends only on the two bits of each coordinate as the curve's table lists them |
| HilbertTable.RoundTwo | src/indexes/rtree/HilbertCurve.hpp:77-95 | for two dimensions one round has the closed form used in the table |
| BenchNodes.Node.constructor | src/bench/indexes/rtree/Node.hpp:16-17 | a new node holds no entries |
| BenchNodes.Node.IsFull | src/bench/indexes/rtree/Node.hpp:24-27 | full exactly when the node holds C entries |
| BenchNodes.Node.Add | src/bench/indexes/rtree/Node.hpp:35-44 | a full node throws `out_of_range` and is left as it was; otherwise the entry is stored after the others |
| BenchNodes.Node.Reset | src/bench/indexes/rtree/Node.hpp:52-56 | the node holds exactly the given entry |
| BenchNodes.FillTwo | src/bench/indexes/rtree/Node.hpp:24-56 | a node of capacity two takes two entries, reads them back in order, is then full, and a third `add` throws |
| Entries.RectsOf | src/indexes/rtree/Entry.hpp:36 | the rectangles of the children, one per child, in order, for plain and Hilbert children alike |
| Entries.UnionAll | src/indexes/rtree/Entry.hpp:125-134 | the union of the children's rectangles has their dimension |
| Entries.UnionAllContains | src/indexes/rtree/Entry.hpp:125-134 | the union contains every child's rectangle |
| Entries.UnionAllLeast | src/indexes/rtree/Entry.hpp:125-134 | any rectangle containing every child's rectangle contains the union |
| Entries.UnionAllSnoc | src/indexes/rtree/Entry.hpp:79-83 | growing by one more rectangle is one `+=` |
| Entries.UnionIdempotent | src/indexes/rtree/Entry.hpp:129-132 | adding a rectangle to itself changes nothing, so the first child counted twice is harmless |
| Entries.ContainsReflexive | src/indexes/rtree/Mbr.hpp:159-168 | a rectangle contains itself |
| Entries.ContainsTransitive | src/indexes/rtree/Mbr.hpp:159-168 | containment is transitive |
| Entries.PrefixUnion | src/indexes/rtree/Entry.hpp:105-107 | the union of the first k + 1 children is that of the first k grown by child k |
| Entries.OverlapSumBounds | src/indexes/rtree/Entry.hpp:137-154 | the R* overlap of proper rectangles lies between 0 and the entry's volume times the number of others |
| Entries.Entry.constructor | src/indexes/rtree/Entry.hpp:46-48 | the entry holds the given node and rectangle |
| Entries.Entry.Add | src/indexes/rtree/Entry.hpp:79-83 | the child is appended to the node and the rectangle becomes its union with the child's; a full node throws and nothing changes |
| Entries.Entry.Assign | src/indexes/rtree/Entry.hpp:93-108 | an empty range throws `logic_error` and changes nothing; otherwise the node holds the range and the rectangle is its union; a longer range than the capacity throws once the node is full |
| Entries.Entry.Refill | src/indexes/rtree/Entry.hpp:102-107 | the loop of `assign` over a non-empty range, with the same outcomes |
| Entries.Entry.RecalculateMbr | src/indexes/rtree/Entry.hpp:125-134 | the rectangle becomes the union of the children's rectangles |
| Entries.Entry.Overlap | src/indexes/rtree/Entry.hpp:144-154 | the sum, over the others, of the volume of their intersection with this rectangle |
| PointerArrayNodes.MatchingLinksMembership | src/indexes/rtree/PointerArrayNode.hpp:163-171 | a scan yields a link exactly when some entry carrying it meets the query |
| PointerArrayNodes.MatchingLinksLength | src/indexes/rtree/PointerArrayNode.hpp:178-184 | a scan yields no more links than there are entries |
| PointerArrayNodes.NextMatchFacts | src/indexes/rtree/PointerArrayNode.hpp:157-171 | `findNext` stops at the first position from its start whose rectangle meets the query, or at the end, skipping nothing that meets it |
| PointerArrayNodes.MatchingLinksFront | src/indexes/rtree/PointerArrayNode.hpp:163-171 | the links matched in a list are those of its first entry, if it meets the query, followed by those of the rest |
| PointerArrayNodes.PointerArrayNode.ContentsDim | src/indexes/rtree/PointerArrayNode.hpp:257 | every stored rectangle has the node's dimension |
| PointerArrayNodes.PointerArrayNode.constructor | src/indexes/rtree/BaseNode.hpp:40-42 | a new node holds no entries |
| PointerArrayNodes.PointerArrayNode.Of | src/indexes/rtree/BaseNode.hpp:51-55 | a node built from a list holds that list |
| PointerArrayNodes.PointerArrayNode.SetMbr | src/indexes/rtree/PointerArrayNode.hpp:229-232 | only the rectangle at the index changes |
| PointerArrayNodes.PointerArrayNode.SetLink | src/indexes/rtree/PointerArrayNode.hpp:240-243 | only the link at the index changes |
| PointerArrayNodes.PointerArrayNode.SetPlugin | src/indexes/rtree/PointerArrayNode.hpp:251-254 | only the plugin data at the index changes |
| PointerArrayNodes.PointerArrayNode.At | src/indexes/rtree/BaseNode.hpp:76-86 | reading index i gives the i-th entry in use, assembled from the three arrays |
| PointerArrayNodes.PointerArrayNode.Put | src/indexes/rtree/BaseNode.hpp:64-68 | writing through the proxy replaces exactly the i-th entry |
| PointerArrayNodes.PointerArrayNode.IsFull | src/indexes/rtree/BaseNode.hpp:151-154 | full exactly when no more entries may be added |
| PointerArrayNodes.PointerArrayNode.Add | src/indexes/rtree/BaseNode.hpp:92-96 | on a node that is not full (the source asserts it) the entry is appended |
| PointerArrayNodes.PointerArrayNode.AddRange | src/indexes/rtree/BaseNode.hpp:113-120 | the range is appended in order |
| PointerArrayNodes.PointerArrayNode.Assign | src/indexes/rtree/BaseNode.hpp:105-110 | the node holds exactly the range |
| PointerArrayNodes.PointerArrayNode.Scan | src/indexes/rtree/PointerArrayNode.hpp:178-184 | the begin iterator stands at the first match and the end iterator at the size |
| PointerArrayNodes.ScanIterator.constructor | src/indexes/rtree/PointerArrayNode.hpp:66-73 | a new iterator with a query moves on to the first match from its index |
| PointerArrayNodes.ScanIterator.FindNext | src/indexes/rtree/PointerArrayNode.hpp:163-171 | the index moves to the next position whose rectangle meets the query |
| PointerArrayNodes.ScanIterator.Increment | src/indexes/rtree/PointerArrayNode.hpp:83-88 | the index moves past the current position to the next match |
| PointerArrayNodes.ScanLinks | src/indexes/rtree/PointerArrayNode.hpp:38-184 | iterating `scan(query)` from begin to end yields exactly the links of the entries meeting the query, in index order |
| HilbertEntries.HvLessIsWeakOrder | src/indexes/rtree/HilbertEntry.hpp:82-84 | comparing by Hilbert value is a strict weak order |
| HilbertEntries.MaxHvIsMaximum | src/indexes/rtree/HilbertEntry.hpp:39-41 | the largest child value bounds every child's value and is one of them; no children give 0 |
| HilbertEntries.PrefixStep | src/indexes/rtree/HilbertEntry.hpp:112-116 | one more child grows the union by its rectangle, the largest value by its value, and the sorted children by one insertion |
| HilbertEntries.InsertPosUnique | src/indexes/rtree/HilbertEntry.hpp:78-85 | in a sorted list, the insertion position is the one position with no greater value before it and only greater values after it |
| HilbertEntries.HilbertEntry.FromNodeAsWritten | src/indexes/rtree/HilbertEntry.hpp:37-42 | as written, the value is the maximum of whatever the storage held and the children's values |
| HilbertEntries.HilbertEntry.FromNode | src/indexes/rtree/HilbertEntry.hpp:37-42 | with the value starting at 0, it is the largest child value |
| HilbertEntries.HilbertEntry.Add | src/indexes/rtree/HilbertEntry.hpp:74-88 | the child is inserted after every child of equal or smaller value, the rectangle grows to cover it and the value is the maximum; children in Hilbert order stay in order; a full node throws and nothing changes |
| HilbertEntries.HilbertEntry.MergeLast | src/indexes/rtree/HilbertEntry.hpp:78-85 | `inplace_merge` of the appended child gives the stable insertion into the sorted children |
| HilbertEntries.HilbertEntry.Include | src/indexes/rtree/HilbertEntry.hpp:98-102 | the rectangle grows to cover the given one and the value becomes the maximum; the children do not change |
| HilbertEntries.HilbertEntry.GetHilbertValue | src/indexes/rtree/HilbertEntry.hpp:122-125 | the largest value seen below the entry |
| HilbertEntries.HilbertEntry.Assign | src/indexes/rtree/HilbertEntry.hpp:111-116 | the value is reset to 0; an empty range then throws `logic_error`; otherwise the children are the range in stable Hilbert order, the rectangle its union and the value its largest, and a range over capacity throws once the node is full |
| HilbertEntries.HilbertEntry.Refill | src/indexes/rtree/Entry.hpp:102-107 | the loop of the base `assign`, calling this entry's `add` |
| HilbertEntries.Taken | src/indexes/rtree/Entry.hpp:105-107 | the children a range leaves behind: at most the capacity, a prefix of the range, all of it when it fits |
| HilbertEntries.AssignedChildren | src/indexes/rtree/HilbertEntry.hpp:111-116 | the assigned children are sorted by value, a permutation of the range, and none exceeds the largest value |
| HilbertEntries.AddKeepsOrder | src/indexes/rtree/HilbertEntry.hpp:74-88 | adding keeps the children sorted and adds exactly the new child |
| HilbertEntries.UninitialisedValueCounterexample | src/indexes/rtree/HilbertEntry.hpp:37-42 | a node whose one child has value 3, over storage holding 7, reports 7 where 3 is meant |
| HilbertRtrees.UpperBound | src/indexes/rtree/HilbertRtree.hpp:157-163 | the binary search returns a position inside its range |
| HilbertRtrees.UpperBoundSplits | src/indexes/rtree/HilbertRtree.hpp:157-163 | on children sorted by Hilbert value, the search returns the first position whose value exceeds the entry's: values up to it are not greater, values from it on are |
| HilbertRtrees.ChooseSubtree | src/indexes/rtree/HilbertRtree.hpp:153-167 | the chosen position is a child of the parent |
| HilbertRtrees.ChooseSubtreeChoice | src/indexes/rtree/HilbertRtree.hpp:145-167 | the chosen child is the first whose value is strictly greater than the entry's, or the last child when none is |
| HilbertRtrees.Window | src/indexes/rtree/HilbertRtree.hpp:83-97 | the siblings checked lie inside the parent, include the full child, and number s (all of them when the parent has fewer) |
| HilbertRtrees.Cost | src/indexes/rtree/HilbertRtree.hpp:102-110 | the cost of a sibling fits in an unsigned 32-bit value |
| HilbertRtrees.CostOrder | src/indexes/rtree/HilbertRtree.hpp:102-110 | a sibling with room costs less than a full one; a lower cost means nearer, or equally near and to the right; distinct siblings never tie |
| HilbertRtrees.SmallCost | src/indexes/rtree/HilbertRtree.hpp:108-109 | near the full child the cost is twice the distance plus one for a sibling on the left, without wrap-around |
| HilbertRtrees.ChooseNeighbour | src/indexes/rtree/HilbertRtree.hpp:99-114 | the chosen sibling lies in the window and is the first of least cost |
| HilbertRtrees.NeighbourHasRoom | src/indexes/rtree/HilbertRtree.hpp:99-128 | whenever the window holds a sibling with room, the chosen one has room and none with room is nearer |
| HilbertRtrees.ShareStartClosed | src/indexes/rtree/HilbertRtree.hpp:230-251 | parent i's children start after i base shares plus one for each earlier parent that got a leftover |
| HilbertRtrees.SpreadBound | src/indexes/rtree/HilbertRtree.hpp:230-251 | the starts never pass the buffer's length, and the last one reaches it |
| HilbertRtrees.ShareFacts | src/indexes/rtree/HilbertRtree.hpp:230-251 | the shares laid end to end stay inside the buffer and cover it exactly |
| HilbertRtrees.SharesEven | src/indexes/rtree/HilbertRtree.hpp:232-244 | every share is the base share or one more, and the larger shares come first |
| HilbertRtrees.Buffer | src/indexes/rtree/HilbertRtree.hpp:222-227 | the sorted buffer is a permutation of the gathered children, sorted by Hilbert value |
| HilbertRtrees.BufferKeepsDim | src/indexes/rtree/HilbertRtree.hpp:222-227 | sorting keeps every rectangle's dimension |
| HilbertRtrees.Gather | src/indexes/rtree/HilbertRtree.hpp:209-217 | the children of all parents, one node after the other |
| HilbertRtrees.Redistribute | src/indexes/rtree/HilbertRtree.hpp:206-252 | it succeeds exactly when every share is non-empty and fits its node; then parent i holds its consecutive part of the sorted buffer, with the rectangle and value that part gives |
| HilbertRtrees.Distribute | src/indexes/rtree/HilbertRtree.hpp:230-251 | the hand-out loop with the same outcome over a sorted buffer |
| HilbertRtrees.HandOut | src/indexes/rtree/HilbertRtree.hpp:236-250 | one round: the share ends after the base share, plus one while leftovers remain, and the parent is assigned its part |
| HilbertRtrees.AssignShare | src/indexes/rtree/HilbertRtree.hpp:246-247 | assigning one share leaves the parents before it unchanged and this one holding its part |
| HilbertRtrees.AssignPart | src/indexes/rtree/HilbertRtree.hpp:247 | `assign` of a sorted part succeeds exactly when it is non-empty and fits, and then the entry holds it |
| HilbertRtrees.Remainder | src/indexes/rtree/HilbertRtree.hpp:233 | `size - base * nParents` is the remainder of the division |
| HilbertRtrees.SortedSlice | src/indexes/rtree/HilbertRtree.hpp:246-247 | a slice of the sorted buffer is sorted |
| HilbertRtrees.SortedIsFixed | src/indexes/rtree/HilbertRtree.hpp:246-247 | assigning an already sorted part leaves it in its order |
| HilbertRtrees.PartsCoverBuffer | src/indexes/rtree/HilbertRtree.hpp:234-250 | the first i parts laid end to end are the buffer up to parent i's start |
| HilbertRtrees.AllPartsAreBuffer | src/indexes/rtree/HilbertRtree.hpp:230-251 | all the parts laid end to end are the whole buffer: no child is lost or repeated |
| HilbertRtrees.Part | src/indexes/rtree/HilbertRtree.hpp:238-244 | parent j's part has its share's length |
| QuadraticRtrees.ChooseSubtree | src/indexes/rtree/QuadraticRtree.hpp:35-57 | the end position exactly for an empty node; otherwise the first child of least (volume enlargement, volume) |
| QuadraticRtrees.ChosenSubtreeIsLeast | src/indexes/rtree/QuadraticRtree.hpp:43-55 | the chosen child needs no more enlargement than any other, and among equally small enlargements has the least volume |
| QuadraticRtrees.Seeds | src/indexes/rtree/QuadraticSeeds.hpp:30-46 | the seeds are the first pair of positions, in the view's order, whose waste is largest |
| QuadraticRtrees.PairsInRange | src/indexes/rtree/QuadraticSeeds.hpp:36 | every pair the view yields is two positions of the buffer, first before second |
| QuadraticRtrees.NegWastes | src/indexes/rtree/QuadraticSeeds.hpp:38-43 | the key of each enumerated pair is its negated waste |
| QuadraticRtrees.SeedsAreBest | src/indexes/rtree/QuadraticSeeds.hpp:38-45 | the pair at the first least negated waste is the first pair of largest waste |
| QuadraticRtrees.PickNext | src/indexes/rtree/QuadraticRtree.hpp:113-122 | the selected entry is the first among those left with the largest difference of enlargements |
| QuadraticRtrees.GroupChoice | src/indexes/rtree/QuadraticRtree.hpp:127-144 | an entry joins the group it enlarges less; on a tie the one of smaller volume, then the one with fewer entries; a complete tie keeps it in group a; the rule never prefers b from both sides |
| QuadraticRtrees.Swap | src/indexes/rtree/QuadraticRtree.hpp:94-95 | `iter_swap` exchanges two positions and keeps the buffer's entries |
| QuadraticRtrees.SwapKeepsSuffix | src/indexes/rtree/QuadraticRtree.hpp:125 | swapping within the entries still to place keeps them |
| QuadraticRtrees.SeedsRemoved | src/indexes/rtree/QuadraticRtree.hpp:94-97 | the seeds end up last, the second seed at the end, and cutting them off leaves every other entry exactly once |
| QuadraticRtrees.Redistribute | src/indexes/rtree/QuadraticRtree.hpp:60-146 | the seeds are the pair of largest waste and head the two nodes; every entry of both nodes ends up in exactly one of them; each holds between m and all but m entries |
| QuadraticRtrees.PlantSeeds | src/indexes/rtree/QuadraticRtree.hpp:86-87 | each node holds only its seed |
| QuadraticRtrees.Split | src/indexes/rtree/QuadraticRtree.hpp:99-145 | the loop places every remaining entry, keeping the seeds first and the group sizes within bounds |
| QuadraticRtrees.PlaceRest | src/indexes/rtree/QuadraticRtree.hpp:102-111 | once a group holds all but m entries, the other takes every remaining one |
| QuadraticRtrees.Append | src/indexes/rtree/BaseNode.hpp:113-120 | the range is added to one node; its first entry and the other node stay as they were |
| QuadraticRtrees.PlaceNext | src/indexes/rtree/QuadraticRtree.hpp:113-144 | one round keeps the split's invariant with one more entry placed |
| QuadraticRtrees.Select | src/indexes/rtree/QuadraticRtree.hpp:113-125 | the selected entry moves to the front of those left, which stay the same, and has the largest preference among them |
| QuadraticRtrees.SwapFirst | src/indexes/rtree/QuadraticRtree.hpp:125 | swapping the selected entry to the front leaves the placed positions alone and puts the largest preference first |
| QuadraticRtrees.Join | src/indexes/rtree/QuadraticRtree.hpp:127-144 | the entry joins the group the rule picks and that group's rectangle grows to cover it; the seeds stay first |
| Rtrees.Rtree.constructor | src/indexes/rtree/Rtree.hpp:32-36 | a new tree has height 1 and one empty root node, which it allocated itself |
| Rtrees.Rtree.AllocateNode | src/indexes/rtree/Rtree.hpp:97-102 | a new empty node is recorded at the front of the node list; root and height are unchanged; no node is recorded twice |
| Rtrees.Rtree.AddLevel | src/indexes/rtree/Rtree.hpp:108-112 | the new root replaces the old one and the height grows by one |
| Rtrees.RangeSearch | src/indexes/rtree/Rtree.hpp:120-149 | the stack-driven search reports exactly what the recursive descent `Found` reports, in the same order |
| Rtrees.Visit | src/indexes/rtree/Rtree.hpp:128-145 | one step keeps "reported + still pending = the whole answer" and makes the stack lighter |
| Rtrees.FoundIsMeetingLeaves | src/indexes/rtree/Rtree.hpp:138-145 | in a tree whose entries cover their children, the search reports exactly the ids of the leaf-level entries meeting the box, in depth-first order |
| Rtrees.NoneMeeting | src/indexes/rtree/Rtree.hpp:138 | a subtree whose covering rectangle misses the box holds no entry meeting it |
| Rtrees.LeavesInside | src/indexes/rtree/Rtree.hpp:138-144 | every leaf-level entry below a covering rectangle lies inside it |
| Rtrees.MeetingAppend | src/indexes/rtree/Rtree.hpp:127-146 | the reports for two runs of entries are the reports for each, concatenated |
| Rtrees.KnnSearch | src/indexes/rtree/Rtree.hpp:208-245 | at most `k` ids are reported, each an object of the tree and none more often than it occurs; fewer than `k` only when every object was reported |
| Rtrees.Pop | src/indexes/rtree/Rtree.hpp:221-241 | one round moves objects from the queue to the results without losing or adding any, and lightens the queue |
| Rtrees.Top | src/indexes/rtree/Rtree.hpp:212-221 | the entry taken is one no other queued entry is smaller than under `operator>` |
| Rtrees.Expand | src/indexes/rtree/Rtree.hpp:231-241 | a node's entries are queued in its place: the queue stands for the same objects and weighs less |
| Rtrees.EntryFor | src/indexes/rtree/Rtree.hpp:233-239 | an entry below elevation 1 is queued as its object, otherwise as its child one level down, with the given distance |
| Rtrees.PushEntry | src/indexes/rtree/Rtree.hpp:232-240 | the queued entry stands for exactly the objects under that position of the node |
| KnnQueueEntries.ForObject | src/bench/indexes/rtree/KnnQueueEntry.hpp:18-19 | the object constructor sets id, elevation and distance |
| KnnQueueEntries.ForNode | src/bench/indexes/rtree/KnnQueueEntry.hpp:21-22 | the node constructor sets node, elevation and distance |
| KnnQueueEntries.GreaterIsStrictOrder | src/bench/indexes/rtree/KnnQueueEntry.hpp:26-38 | `operator>` is irreflexive, asymmetric and transitive, so the queue's order is well defined |
| KnnQueueEntries.EqualDistance | src/bench/indexes/rtree/KnnQueueEntry.hpp:28-35 | at equal distance two objects compare by id, and otherwise the lower elevation is greater; equal non-zero elevations are unordered |
| KnnQueueEntries.FartherIsGreater | src/bench/indexes/rtree/KnnQueueEntry.hpp:37 | a larger distance is greater whatever the elevations and ids |
| KnnQueueEntries.GreaterExamples | src/indexes/rtree/KnnQueueEntry.test.cpp:13-37 | the test cases: distance decides, then elevation, then ids |
| FlatScanning.BlockIsProduct | src/indexes/scanning/Scanning.cpp:23-24 | object `i`'s block starts at 2·D·i |
| FlatScanning.SlotIsIndex | src/indexes/scanning/Scanning.cpp:23-24 | the bound's slot is the index 2(D·i + j) + b the source writes |
| FlatScanning.SlotBound | src/indexes/scanning/Scanning.cpp:11 | every slot of object `i` lies in its own block, inside the buffer of 2·size·D coordinates |
| FlatScanning.SlotInjective | src/indexes/scanning/Scanning.cpp:23-24 | different (object, dimension, bound) triples never share a slot |
| FlatScanning.Hits | src/indexes/scanning/Sequential.cpp:15-28 | the objects whose box meets the query: increasing, each below the count, none left out |
| FlatScanning.Scanning.constructor | src/indexes/scanning/Scanning.cpp:7-13 | buffers for `size` ids and 2·size·D coordinates, no objects yet |
| FlatScanning.Scanning.Insert | src/indexes/scanning/Scanning.cpp:15-28 | the id is appended, the new object's box is the given one, and every earlier box is unchanged |
| FlatScanning.Scanning.RangeSearch | src/indexes/scanning/Sequential.cpp:8-31 | the ids of exactly the objects whose box meets the query, in insertion order |
| FlatScanning.Scanning.Meets | src/indexes/scanning/Sequential.cpp:16-23 | the per-dimension test holds exactly when the stored box meets the query |
| FlatScanning.Scanning.KnnSearch | src/indexes/scanning/Sequential.cpp:34-37 | always fails with a logic error |
| FlatScanning.UnchangedBoxes | src/indexes/scanning/Scanning.cpp:22-25 | writing from object `n`'s block on leaves the first `n` boxes alone |
| MemoryRegions.ScanTokens | src/mmap/MemoryRegion.cpp:14-16 | reading a line with `>>` only ever completes non-empty tokens without whitespace |
| MemoryRegions.TokensAreTokens | src/mmap/MemoryRegion.cpp:14-16 | every token of a line is non-empty and holds no whitespace |
| MemoryRegions.ScanJoin | src/mmap/MemoryRegion.cpp:14-16 | reading tokens joined by spaces completes all but the last, which is still being read |
| MemoryRegions.TokensOfJoin | src/mmap/MemoryRegion.cpp:14-16 | tokenizing proper tokens joined by spaces gives them back, in order |
| MemoryRegions.Tokenize | src/mmap/MemoryRegion.cpp:10-16 | the character loop yields exactly the tokens of the line |
| MemoryRegions.HexDigit | src/mmap/MemoryRegion.cpp:98-99 | a hexadecimal digit's value is below 16 |
| MemoryRegions.HexRun | src/mmap/MemoryRegion.cpp:98-99 | the leading run of hexadecimal digits: all digits, and the next character is not one |
| MemoryRegions.ParseHex | src/mmap/MemoryRegion.cpp:98-99 | invalid_argument exactly when no hexadecimal digit leads; out_of_range exactly when the leading digits' value does not fit in an unsigned 64-bit integer; otherwise that value |
| MemoryRegions.ParseHexPrefix | src/mmap/MemoryRegion.cpp:98-99 | parsing digits followed by a non-digit gives the digits' value |
| MemoryRegions.FindDash | src/mmap/MemoryRegion.cpp:91 | the position of the first dash, or none when the string has no dash |
| MemoryRegions.ParseRange | src/mmap/MemoryRegion.cpp:89-101 | runtime_error exactly when there is no dash or the dash is the last character |
| MemoryRegions.ParseRangeOf | src/mmap/MemoryRegion.cpp:89-101 | `start-end` in hexadecimal parses back to the two numbers |
| MemoryRegions.MemoryRegion.GetPath | src/mmap/MemoryRegion.cpp:69-72 | the path is empty or the mapping's name |
| MemoryRegions.PathAgreement | src/mmap/MemoryRegion.cpp:45-72 | `hasPath` holds exactly when `getPath` is non-empty, and then the path is the name; the heap and vvar mappings have a name but no path |
| MemoryRegions.RegionOf | src/mmap/MemoryRegion.cpp:7-30 | fewer than two tokens is a runtime_error |
| MemoryRegions.Parse | src/mmap/MemoryRegion.cpp:7-30 | the constructor yields the region of the line or the error it throws |
| MemoryRegions.RegionOfLine | src/mmap/MemoryRegion.cpp:7-30 | a maps line reads back as its range and permissions, named by its sixth field when it has one and unnamed otherwise |
| ProgressLoggers.Count | src/bench/reporters/ProgressLogger.cpp:13 | the count fits in 32 bits |
| ProgressLoggers.Rounding | src/bench/reporters/ProgressLogger.cpp:13 | (2·CELLS·p + max) / (2·max) is at most CELLS and brackets CELLS·p/max |
| ProgressLoggers.CountRounds | src/bench/reporters/ProgressLogger.cpp:13 | up to `max`, the count is CELLS·p/max rounded to the nearest integer, halves up |
| ProgressLoggers.RoundedOrder | src/bench/reporters/ProgressLogger.cpp:13 | counts rounded from ordered progress are ordered, and close progress gives counts at most one apart |
| ProgressLoggers.CountEnds | src/bench/reporters/ProgressLogger.cpp:13 | progress 0 gives an empty bar and progress `max` a full one |
| ProgressLoggers.CountMonotone | src/bench/reporters/ProgressLogger.cpp:13 | more progress never fills fewer cells |
| ProgressLoggers.CountStep | src/bench/reporters/ProgressLogger.cpp:13 | with at least as many steps as cells, one increment fills at most one more cell |
| ProgressLoggers.Cells | src/bench/reporters/ProgressLogger.cpp:18-24 | `n` copies of one character |
| ProgressLoggers.BarLayout | src/bench/reporters/ProgressLogger.cpp:17-24 | a redraw is a carriage return and CELLS cells, the first `count` filled and the rest empty |
| ProgressLoggers.BarOverflow | src/bench/reporters/ProgressLogger.cpp:22-24 | past CELLS filled cells the empty-cell count wraps and the bar is 2^32 + CELLS + 1 characters long |
| ProgressLoggers.SetAgainIsQuiet | src/bench/reporters/ProgressLogger.cpp:15 | setting the same non-zero progress again writes nothing |
| ProgressLoggers.ProgressLogger.constructor | src/bench/reporters/ProgressLogger.cpp:4-8 | progress 0, and the empty bar drawn once |
| ProgressLoggers.ProgressLogger.Set | src/bench/reporters/ProgressLogger.cpp:10-30 | the bar for `p` is appended exactly when its count changed or the old progress was 0; the progress becomes `p` |
| ProgressLoggers.ProgressLogger.Increment | src/bench/reporters/ProgressLogger.cpp:32-35 | `set` with the progress one higher, modulo 2^64 |
| HillClimb.CandidatesAreNeighbours | scripts/optimize.py:63-66 | a point is a candidate exactly when it moves one parameter of the current point up or down by the step and keeps all others |
| HillClimb.Evaluate | scripts/optimize.py:69-72 | exactly the valid candidates, each scored by the evaluator |
| HillClimb.MinAsWritten | scripts/optimize.py:74-77 | None exactly for no evaluated candidates |
| HillClimb.MinFrom | scripts/optimize.py:74 | the only way `min` fails is a TypeError |
| HillClimb.MinTieRaises | scripts/optimize.py:74 | two different candidates with the same score make `min` raise TypeError |
| HillClimb.MinTieAtStartRaises | scripts/optimize.py:74 | a tie between the first two evaluated candidates raises, whatever follows |
| HillClimb.LocalBest | scripts/optimize.py:74-77 | the first evaluated candidate of least score: every earlier one scores strictly more and no later one less; None exactly for none |
| HillClimb.BestFrom | scripts/optimize.py:74 | the running minimum is one of the pairs and no pair scores less |
| HillClimb.BestFromIsFirst | scripts/optimize.py:74 | on ties the running minimum keeps the earlier pair, so it is the first pair of least score |
| HillClimb.MinAgrees | scripts/optimize.py:74-77 | wherever `min` does not raise, it picks the same pair as the local best |
| HillClimb.HalfRounded | scripts/optimize.py:85 | Python's `round(x / 2)`: within a half of x/2, ties to even |
| HillClimb.NextStep | scripts/optimize.py:85 | the next step is at least 1 and shrinks any step above 1 |
| HillClimb.StepSizes | scripts/optimize.py:59-85 | the steps go 5, 2, 1 |
| HillClimb.CheckRestrictions | scripts/optimize.py:90-91 | true exactly when every restriction holds at the point |
| HillClimb.Climb | scripts/optimize.py:53-87 | the result is the start or a valid point with as many parameters, and no valid neighbour at step 2 scores strictly less |
| Databases.SplitAt | scripts/database.py:84-89 | the parts before and after the first occurrence of a character, none when it is missing |
| Databases.SplitAtConcat | scripts/database.py:84-89 | splitting at the first separator finds the part before it again |
| Databases.UnjoinJoin | scripts/database.py:86-88 | parts joined with `', '` split back into the same parts |
| Databases.ParseLayout | scripts/database.py:84-89 | a statement laid out from a table and two lists reads back to them |
| Databases.StatementRoundTrip | scripts/database.py:84-89 | the statement names the table, then every column in key order, then one placeholder per column naming its key in the same order |
| Databases.Database.Insert | scripts/database.py:91-98 | one statement built from the row's keys is run on that row |
| Databases.Database.InsertMany | scripts/database.py:100-112 | nothing is run for no rows; otherwise one statement built from the first row's keys is run on all rows |

## Left out

- Mbrs.MeasureExamples: the perimeter is the code's sum of extents (Mbr.hpp:243-252), so a 2 x 2 square gives 4. The unit test at Mbr.test.cpp:152-173 expects 8 and 2 for its boxes and builds them with a constructor Mbr.hpp does not declare; that test is not followed.
- Floating point: coordinates, volumes, distances and scores are integers. Rounding, NaN and infinities are not modelled.
- HilbertCurves.Map: the normalisation of a point into the unit cube (HilbertCurve.hpp:43-53) is left out. Its float doubling is replaced by reading the bits of an integer grid coordinate. The shift cap `min(8·sizeof(H) - i·D, D)` at line 84 is not modelled: the value is an unbounded natural number, shifted by D every round.
- Rtrees: the searches run over a value tree rather than the heap nodes that `allocateNode` links together. Aliasing between nodes is not modelled.
- Rtrees.KnnSearch: the order in which objects are reported is not stated. The contract covers the bound `k`, that only the tree's objects come back, and completeness. The queue is a sequence searched for a least element, and ties may be taken in a different order than `std::priority_queue` takes them.
- The instrumented `rangeSearch(box, stats)` and the other statistics counters are left out; they only count.
- `std::sort` is modelled as a stable insertion sort, which is one of the orders it may produce.
- Begin/end iterator pairs are modelled as positions. The cache-line iterator and `MemoryRegion::begin`/`end` are left out, and so is `invalidate`, which issues `clflush` instructions.
- MemoryRegions.ParseHex: `stoull` also skips leading whitespace and accepts a sign and a `0x` prefix. Tokens never hold whitespace; the sign and the prefix are not modelled. The address range is a pair of numbers, not pointers.
- The texts of the error messages are left out; only the kind of exception is modelled.
- `Sequential` adds its two searches to `Scanning`; the model folds them into the one class. `Parallel` is not part of this model.
- FlatScanning.Scanning.Insert: requires room for one more object. The source writes past its buffers when they are full.
- HilbertRtrees.Redistribute: when an `assign` throws, the contract only keeps every parent well formed. It does not state that the parents before the failing share already hold their parts, nor what the others hold.
- Unsigned widths are written out only where they change a result: ProgressLogger's counts, the 32-bit neighbour cost of HilbertRtrees.Cost and the 64-bit `stoull` limit. Other counters are unbounded naturals.
- ProgressLoggers.ProgressLogger.constructor: requires a `max` below 2^32 whose double is non-zero modulo 2^32. The source narrows `max` to 32 bits and divides by zero otherwise. The stream is the string written to it, and flushes are not modelled.
- ProgressLoggers.BarOverflow: progress beyond `max` is modelled as written, and this lemma shows the wrapped bar length. No corrected version is given: the source's callers never pass more than `max`.
- HillClimb: the `print` calls, `evaluate`, `main` and the database access around the climb are I/O and are left out. The validator and the evaluator are parameters. `check_restrictions` evaluates Python expressions with `eval`; each restriction is modelled as a predicate on the point.
- HillClimb.Climb: scores are natural numbers, and `best` starts as "none yet" in place of `float('inf')`. The climb uses the local best; the as-written `min`, which can raise, is modelled separately (see Findings).
- Databases: the SQLite connection is the log of what it was asked to run. `__init__`, the schema, `commit` and the query helpers are left out. A row is its (key, value) pairs in insertion order, as a dict iterates them.
- PointerArrayNodes.PointerArrayNode.Add, PointerArrayNodes.PointerArrayNode.Put and their callers require what the source `assert`s (`size < C`, `i < size`).
- The remaining tree variants (R*-tree, RR*-tree, Greene and the transforming tree) and the other node layouts are not part of this model.

## Findings

| source | as written | input that shows it | evidently intended | confidence | as-written member | corrected member |
|---|---|---|---|---|---|---|
| src/common/Box.cpp:94-103 | `getVolume` starts its product at 0, so every box has volume 0 | the box from (0,0) to (2,3) | the product of the side lengths, starting at 1 (volume 6 here) | high; not executed | Boxes.Box.GetVolumeAsWritten, Boxes.VolumeCounterexample | Boxes.Box.GetVolume |
| src/indexes/rtree/CombinationsView.hpp:27-59 | `begin()` of a one-element range is (last, last + 1), which never equals `end()`; in a build without NDEBUG the assert at CombinationsView.hpp:54-56 fails first, so the wrong iterator is reached in release builds | a range of one element | `begin()` equals `end()` when there are no pairs | high; not executed | Combinations.CombinationsIterator.BeginAsWritten, Combinations.OneElementCounterexample | Combinations.CombinationsIterator.Begin, Combinations.Pairs |
| scripts/optimize.py:74-77 | `min` over (score, dict) pairs compares the dicts when two scores tie, which raises TypeError | two valid candidates with the same score | the first candidate of least score | high; not executed | HillClimb.MinAsWritten, HillClimb.MinTieRaises | HillClimb.LocalBest, HillClimb.MinAgrees, HillClimb.Climb |
| src/indexes/rtree/HilbertEntry.hpp:37-42 | the entry's Hilbert value is never initialised before the children's values are folded into it with `max`; the brace-list constructor at HilbertEntry.hpp:51-54, used when a root is split or a node is added (HilbertRtree.hpp:70, 72 and 131), sets no value at all, which the model leaves out | a node whose one child has value 3, over storage holding 7 | the largest value among the children (3 here) | medium; not executed | HilbertEntries.HilbertEntry.FromNodeAsWritten, HilbertEntries.UninitialisedValueCounterexample | HilbertEntries.HilbertEntry.FromNode |
