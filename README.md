# Advent of Code solutions, modelled in Dafny

This project models the deterministic integer and string core of a C++ Advent of Code
repository that covers the 2023, 2024 and 2025 puzzles. The core has two parts.

- **The shared library** (`aoc_lib`):
  - the interval table `RangeLookup`;
  - the union-find `disjoint_set`;
  - the `bounded_heap`, which keeps the best `max_size` values;
  - the handle-based `pairing_heap`;
  - the 2-D `Grid` and its neighbourhood kernels;
  - direction and delta arithmetic, and range intersection (`lib.hpp`);
  - the decimal-digit helpers (`util/math.hpp`);
  - the graph searches `bfs`, `topo_sort`, `tarjan_scc` and `dijkstra`;
  - the escaping printer that the unit tests use to show values.
- **The per-day puzzle kernels**. Among them:
  - the lens hashmap (2023 day 15);
  - disk compaction (2024 day 9);
  - the spring-record counter (2023 day 12);
  - poker-hand ranking (2023 day 7);
  - interval remapping (2023 day 5);
  - the 3-bit virtual machine (2024 day 17);
  - the robot keypad chain (2024 day 21);
  - the towel-pattern trie (2024 day 19);
  - the box-pushing warehouse (2024 day 15);
  - the smaller kernels of the other days listed below.

Each source file becomes one Dafny module: `RangeLookups`, `DisjointSets`, `BoundedHeaps`,
`PairingHeaps`, `Grids`, `AocLib`, `AocMath`, `Graphs`/`Bfs`/`TopoSort`/`TarjanScc`/`ShortestPaths`
and `PrettyPrint` for the library, and `Y<year>Day<nn>` for each puzzle day. `Arith` holds a few
shared arithmetic facts. Day 12 has a second module, `Y2023Day12Fillings`, which defines what
`count_arrangements` counts (the fillings of the unknown springs) and proves the recursion equal to it.
The form follows the source:

- Classes whose fields the C++ code updates in place are Dafny classes, with `modifies` clauses
  and a `Valid()` invariant. These are the range table, the union-find, both heaps, the grid, the
  lens boxes, the disk layout, the rock platform, the robots, the warehouse, the trie and the
  memoising robot controller.
- Loops are methods with loop invariants. Each is proved against a specification function of the
  inputs or of the old state.
- Pure code (recursion, comparisons, switch tables) is functions and lemmas.
- Properties that relate several operations are separate lemmas. Examples: round trips, the heap
  order, partitions, agreement between the memoised and the plain recursions, and maximality of
  the greedy choices.

Puzzle input files, command-line drivers and printing of answers are not modelled. Where a kernel
reads its input from a stream, the model takes the already-tokenised values as parameters.

## Model

| member | source | states |
|---|---|---|
| RangeLookups.MakeRangeElement | aoc_lib/src/ds/range_lookup.hpp:20-24 | an empty or inverted range (end <= start) is the domain error; otherwise the element has exactly that start and end and a positive length |
| RangeLookups.LowerBound | aoc_lib/src/ds/range_lookup.hpp:88 | `map::lower_bound`: every earlier key is below x and the key found, if any, is at least x |
| RangeLookups.UpperBound | aoc_lib/src/ds/range_lookup.hpp:210 | `map::upper_bound`: every earlier key is at most x and the key found, if any, is above x |
| RangeLookups.Find | aoc_lib/src/ds/range_lookup.hpp:107 | `map::find`: the position holds key x and no earlier entry does; the end position when x is no key |
| RangeLookups.FindSorted | aoc_lib/src/ds/range_lookup.hpp:107 | in a sorted table find returns the position of the key looked up |
| RangeLookups.RangeLookup.constructor | aoc_lib/src/ds/range_lookup.hpp:46 | a new lookup has an empty table, is valid and covers nothing |
| RangeLookups.RangeLookup.CreateNewRange | aoc_lib/src/ds/range_lookup.hpp:114-117 | returns lower_bound(start); when start is already a key the table is unchanged (emplace fails), otherwise the one-point range [start, start+1) is inserted there |
| RangeLookups.RangeLookup.ExpandRange | aoc_lib/src/ds/range_lookup.hpp:119-162 | a new end below the current one changes nothing; otherwise the table stays valid and covers the old points plus [start, new_end), absorbing every range that starts at or before the growing end |
| RangeLookups.EraseOwnEnd | aoc_lib/src/ds/range_lookup.hpp:128-135 | the range's own end key is erased when present and nothing else changes |
| RangeLookups.AbsorbFollowing | aoc_lib/src/ds/range_lookup.hpp:138-159 | only leading ranges starting at or before the end are erased, the end only grows, the rest stays valid and above the end, and the covered points are the same |
| RangeLookups.RangeLookup.AddRangeAsWritten | aoc_lib/src/ds/range_lookup.hpp:83-117 | add_range with its closing check_invariants: for start < end the table stays valid and covers exactly the old points plus [start, end); a range already covered leaves the table alone; an empty range outside every range inserts the one-point range [start, start + 1) without its end key, so the closing assert(table.size() % 2 == 0) aborts (ok is false exactly then) |
| RangeLookups.RangeLookup.AddAtNewStart | aoc_lib/src/ds/range_lookup.hpp:89-101 | the create branch is taken exactly when start is no key and lies outside every range; it adds exactly [start, end) |
| RangeLookups.RangeLookup.AddToExistingRange | aoc_lib/src/ds/range_lookup.hpp:102-109 | the merge branch is taken when start is covered or is a key; it adds exactly [start, end), and a covered or empty range changes nothing |
| RangeLookups.RangeLookup.AddRange | aoc_lib/src/ds/range_lookup.hpp:83-112 | refuses exactly the empty and inverted ranges; the table stays valid and covers exactly the old points plus [start, end); re-adding a covered range leaves the table untouched |
| RangeLookups.RangeLookup.CountCovered | aoc_lib/src/ds/range_lookup.hpp:198-206 | the sum of the lengths stored under start keys |
| RangeLookups.CountIsCardinality | aoc_lib/src/ds/range_lookup.hpp:198-206 | in a valid table that sum is the number of covered points |
| RangeLookups.RangeLookup.IsCovered | aoc_lib/src/ds/range_lookup.hpp:208-217 | true exactly when the index lies in a stored range |
| RangeLookups.UpperBoundLocates | aoc_lib/src/ds/range_lookup.hpp:208-217 | the next key after x is an end key exactly when x is covered |
| RangeLookups.RangeLookup.CheckInvariants | aoc_lib/src/ds/range_lookup.hpp:164-196 | the debug checks pass exactly when the table is valid (paired start and end keys of disjoint, non-touching ranges) |
| RangeLookups.ConsistentIffPaired | aoc_lib/src/ds/range_lookup.hpp:165-193 | an even size plus the per-entry partner checks are equivalent to the pairing invariant |
| RangeLookups.EntryKinds | aoc_lib/src/ds/range_lookup.hpp:68-79 | in a valid table start keys sit at even positions and end keys at odd ones, each next to its partner |
| RangeLookups.EmptyRangeAborts | aoc_lib/src/ds/range_lookup.hpp:83-117 | add_range(5, 5) as written on an empty table leaves the lone key 5 for [5, 6) and fails the closing size check, so the program aborts |
| DisjointSets.DisjointSet.constructor | aoc_lib/src/ds/disjoint_set.hpp:33-36 | a new structure has no nodes, next id 0 and no sets |
| DisjointSets.DisjointSet.NewSet | aoc_lib/src/ds/disjoint_set.hpp:39-44 | the new node gets the next id, is its own parent and root with size 1, forms the singleton set {id}, and the set count grows by one |
| DisjointSets.AddSingleton | aoc_lib/src/ds/disjoint_set.hpp:21 | a node that is its own parent with size 1 keeps the forest, its sizes and the set count consistent |
| DisjointSets.DisjointSet.Find | aoc_lib/src/ds/disjoint_set.hpp:47-53 | returns the node's representative, which is its own parent; path halving changes no node's representative, size or the set count |
| DisjointSets.HalveStep | aoc_lib/src/ds/disjoint_set.hpp:49 | re-pointing a node to its grandparent keeps the forest valid and every representative |
| DisjointSets.DisjointSet.FindId | aoc_lib/src/ds/disjoint_set.hpp:54-56 | fails exactly for an id never handed out (the checked `at`); otherwise as find |
| DisjointSets.DisjointSet.Merge | aoc_lib/src/ds/disjoint_set.hpp:59-81 | true exactly when the two nodes had different representatives; then their sets are united under the root of the larger set (x's on a tie), its size is the sum and there is one set fewer; otherwise nothing changes |
| DisjointSets.DisjointSet.LinkRoots | aoc_lib/src/ds/disjoint_set.hpp:75-79 | hanging root y under root x relinks exactly y's members, adds the sizes and removes one set |
| DisjointSets.DisjointSet.MergeId | aoc_lib/src/ds/disjoint_set.hpp:82-84 | fails, changing nothing, exactly when either id was never handed out; otherwise true exactly when the two nodes were in different sets, and then the sets are united under the root of the larger set (x's on a tie) with the summed size and one set fewer, while false changes nothing; afterwards both ids have one representative |
| DisjointSets.RelinkSets | aoc_lib/src/ds/disjoint_set.hpp:75-79 | after linking, x's set is the union of the two disjoint old sets, y is no longer a representative, every other set is unchanged and the number of sets drops by one |
| DisjointSets.MembersPartition | aoc_lib/src/ds/disjoint_set.hpp:10-12 | every node belongs to its representative's set and to no other |
| DisjointSets.CountBounds | aoc_lib/src/ds/disjoint_set.hpp:31 | there are never more sets than nodes, and no set is larger than the node count |
| DisjointSets.Link | aoc_lib/src/ds/disjoint_set.hpp:75-79 | linking keeps the forest acyclic, each root's size equal to its set's size and the set count equal to the number of roots |
| BoundedHeaps.BoundedHeap.constructor | aoc_lib/src/ds/bounded_heap.hpp:25-28 | a new heap is empty with the given capacity |
| BoundedHeaps.BoundedHeap.Top | aoc_lib/src/ds/bounded_heap.hpp:46 | the front is held and no element is larger |
| BoundedHeaps.TopIsMax | aoc_lib/src/ds/bounded_heap.hpp:46 | the front of a max-heap bounds every element |
| BoundedHeaps.AncestorBound | aoc_lib/src/ds/bounded_heap.hpp:46 | every element is bounded by the root, through its ancestors |
| BoundedHeaps.PushHeap | aoc_lib/src/ds/bounded_heap.hpp:58 | `std::push_heap` on a heap plus one new element: a heap with the same multiset |
| BoundedHeaps.PopHeap | aoc_lib/src/ds/bounded_heap.hpp:69 | `std::pop_heap`: the old front ends up last, the rest is a heap, and the multiset is the same |
| BoundedHeaps.BoundedHeap.Pop | aoc_lib/src/ds/bounded_heap.hpp:68-71 | removes exactly one occurrence of the top and keeps heap order |
| BoundedHeaps.BoundedHeap.ShouldInsert | aoc_lib/src/ds/bounded_heap.hpp:83-92 | yes exactly when below capacity or the top is not less than the value; when full and yes, the top has been popped; otherwise nothing changes |
| BoundedHeaps.BoundedHeap.Push | aoc_lib/src/ds/bounded_heap.hpp:55-66 | the contents become `Pushed` of the old ones: below capacity the value joins; at capacity it replaces the top when not larger, else is dropped; heap order and the capacity bound are kept |
| BoundedHeaps.PushKeepsSmallest | aoc_lib/src/ds/bounded_heap.hpp:83-92 | at capacity a push keeps the size and whatever it leaves out is at least every value kept: the heap holds the smallest values seen |
| PairingHeaps.InsertLeft | aoc_lib/src/ds/pairing_heap.hpp:63-81 | the lone node becomes the first child: the node keeps its own id, element and siblings, gains the new node's entries, and heap order is kept when the new node is not larger |
| PairingHeaps.Meld | aoc_lib/src/ds/pairing_heap.hpp:111-123 | the root with the element not less than the other's (the first on a tie) stays the root; the entries are the union and two heaps give a heap |
| PairingHeaps.Detach | aoc_lib/src/ds/pairing_heap.hpp:86-109 | extract: the handled node comes out alone, with its children, and carries that handle |
| PairingHeaps.DetachContents | aoc_lib/src/ds/pairing_heap.hpp:86-109 | what extract leaves and what it cuts out together hold exactly the tree's entries |
| PairingHeaps.DetachShape | aoc_lib/src/ds/pairing_heap.hpp:86-109 | a held handle is always found, and a root other than the handled node stays the root |
| PairingHeaps.DetachOrder | aoc_lib/src/ds/pairing_heap.hpp:86-109 | heap order survives both in what extract leaves and in the node it cuts out |
| PairingHeaps.RootIsMax | aoc_lib/src/ds/pairing_heap.hpp:201 | the root of a heap holds its largest element |
| PairingHeaps.PairingHeap.constructor | aoc_lib/src/ds/pairing_heap.hpp:172-174 | a new heap holds nothing and has size 0 |
| PairingHeaps.PairingHeap.Top | aoc_lib/src/ds/pairing_heap.hpp:201 | the root's element, held and not exceeded by any element |
| PairingHeaps.PairingHeap.Empty | aoc_lib/src/ds/pairing_heap.hpp:204 | the size counter is zero exactly when nothing is held |
| PairingHeaps.PairingHeap.Size | aoc_lib/src/ds/pairing_heap.hpp:207 | the counter equals the number of entries held |
| PairingHeaps.PairingHeap.MeldIn | aoc_lib/src/ds/pairing_heap.hpp:161-168 | the other root is melded with the root, or becomes it, and the size grows by the other's size |
| PairingHeaps.PairingHeap.Push | aoc_lib/src/ds/pairing_heap.hpp:212-235 | the entry (fresh handle, value) is added, the size grows by one and the handle names the new node |
| PairingHeaps.ExtractChildren | aoc_lib/src/ds/pairing_heap.hpp:243-246 | the list holds the root's children, first child first, each cut off from its siblings, with the same entries |
| PairingHeaps.FirstPass | aoc_lib/src/ds/pairing_heap.hpp:248-255 | the intended first pass: consecutive pairs melded, half as many heaps (rounded up), same entries |
| PairingHeaps.FirstPassAsWritten | aoc_lib/src/ds/pairing_heap.hpp:249-255 | the loop as written, advancing two places after each erase, ending normally or running past end() |
| PairingHeaps.FirstPassRunsPastEnd | aoc_lib/src/ds/pairing_heap.hpp:249-255 | with two children the loop as written advances past end() after the first meld |
| PairingHeaps.FirstPassSkipsATree | aoc_lib/src/ds/pairing_heap.hpp:249-255 | with four children the loop as written pairs only the first two |
| PairingHeaps.TwoPass | aoc_lib/src/ds/pairing_heap.hpp:248-260 | both passes turn the list into one heap holding exactly the list's entries, and nothing exactly when the list is empty |
| PairingHeaps.PopRoot | aoc_lib/src/ds/pairing_heap.hpp:240-262 | what pop leaves of a heap is a heap holding every entry but the root's |
| PairingHeaps.PairingHeap.Pop | aoc_lib/src/ds/pairing_heap.hpp:240-262 | exactly the top's entry is removed, the rest stays a heap and the size drops by one |
| PairingHeaps.UpdateBelowRootAsWritten | aoc_lib/src/ds/pairing_heap.hpp:275-281 | update as written for a node below the root: the entries come out right (handle's entry replaced) |
| PairingHeaps.UpdateAsWrittenBreaksOrder | aoc_lib/src/ds/pairing_heap.hpp:275-281 | on 10 -> 5 -> 4, updating the 5 to 1 as written leaves the 4 below the 1: not heap-ordered |
| PairingHeaps.RemoveBelowRoot | aoc_lib/src/ds/pairing_heap.hpp:275-278 | the intended removal of a node below the root: only its own entry goes and the rest stays a heap |
| PairingHeaps.UpdateTree | aoc_lib/src/ds/pairing_heap.hpp:267-282 | the handle's entry is replaced by (handle, value) and the result is a heap |
| PairingHeaps.PairingHeap.Update | aoc_lib/src/ds/pairing_heap.hpp:267-282 | the handle's entry is replaced by one with the new value, heap order and the size are kept |
| Grids.Grid.Fill | aoc_lib/src/ds/grid.hpp:205-207 | width and height as given and every one of the width*height cells holds the value |
| Grids.Grid.FromRows | aoc_lib/src/ds/grid.hpp:228-241 | height is the number of rows, width the first row's length, and the cells are the rows concatenated in order |
| Grids.Grid.Like | aoc_lib/src/ds/grid.hpp:244-246 | the other grid's shape with every cell holding the value |
| Grids.Grid.GetIndex | aoc_lib/src/ds/grid.hpp:254-256 | the flat offset y * width + x; PosIndexRoundTrip proves an in-bounds cell maps to a buffer index that index_to_pos maps back |
| Grids.Grid.IndexToPos | aoc_lib/src/ds/grid.hpp:260-262 | column index % width and row index / width; IndexPosRoundTrip proves get_index of it is the index and buffer indices map to in-bounds cells |
| Grids.PosIndexRoundTrip | aoc_lib/src/ds/grid.hpp:254-262 | get_index of an in-bounds cell is a buffer index, and index_to_pos of it gives the cell back |
| Grids.IndexPosRoundTrip | aoc_lib/src/ds/grid.hpp:254-262 | get_index after index_to_pos gives the index back, and buffer indices map to in-bounds cells |
| Grids.FlattenAt | aoc_lib/src/ds/grid.hpp:228-241 | cell (x, y) of the concatenated rows is element x of row y |
| Grids.Grid.At | aoc_lib/src/ds/grid.hpp:284-289 | the checked access fails exactly when y*width + x is outside the buffer, and otherwise reads that cell |
| Grids.AtInBounds | aoc_lib/src/ds/grid.hpp:276-289 | for a valid column the checked access succeeds exactly on in-bounds cells |
| Grids.AtWrapsColumns | aoc_lib/src/ds/grid.hpp:284-289 | the checked access does not check the column: (-1, 1) reads cell (width-1, 0) |
| Grids.Grid.Set | aoc_lib/src/ds/grid.hpp:302-304 | writing through operator[] changes exactly the one cell |
| Grids.Grid.ForEach | aoc_lib/src/ds/grid.hpp:328-340 | the callback sees every cell exactly once, in row-major order, with its position |
| Grids.Grid.ChebyshevKernel | aoc_lib/src/ds/grid.hpp:391-413 | visits exactly the in-bounds cells within the Chebyshev distance, each once, in row-major order |
| Grids.Grid.ManhattanKernel | aoc_lib/src/ds/grid.hpp:425-447 | visits exactly the in-bounds cells within the Manhattan distance, each once, in row-major order |
| AocLib.Turn | aoc_lib/src/lib.hpp:128-133 | turn adds the turn modulo four; TurnForward, TurnCompose and RelativeToInvertsTurn prove forward keeps the heading, turns compose, and relative_to recovers the turn |
| AocLib.Opposite | aoc_lib/src/lib.hpp:135-137 | opposite is turning backward; OppositeInvolution proves it is an involution without fixed points |
| AocLib.RelativeTo | aoc_lib/src/lib.hpp:139-144 | relative_to is the difference modulo four; TurnInvertsRelativeTo proves turning by it reaches the new heading |
| AocLib.TurnForward | aoc_lib/src/lib.hpp:129-134 | turning forward keeps the heading, and every other turn changes it |
| AocLib.OppositeInvolution | aoc_lib/src/lib.hpp:136-138 | the opposite of the opposite is the heading itself, and no heading is its own opposite |
| AocLib.RelativeToInvertsTurn | aoc_lib/src/lib.hpp:129-145 | relative_to recovers the turn: the turn from dir to turn(dir, r) is r |
| AocLib.TurnInvertsRelativeTo | aoc_lib/src/lib.hpp:129-145 | turning by relative_to(dir, target) reaches target |
| AocLib.TurnCompose | aoc_lib/src/lib.hpp:129-134 | two turns in a row are one turn by the sum of their offsets modulo four |
| AocLib.ParseDirection | aoc_lib/src/lib.hpp:58-83 | N/U read as north, E/R east, S/D south, W/L west, and every other character fails |
| AocLib.ParsePrintRoundTrip | aoc_lib/src/lib.hpp:58-101 | reading the printed letter of a direction gives the direction back |
| AocLib.DeltaOf | aoc_lib/src/lib.hpp:155-175 | north is dy = +1, south dy = -1, east dx = +1, west dx = -1, and invert_vertical negates dy |
| AocLib.DeltaOfUnit | aoc_lib/src/lib.hpp:155-183 | a direction's delta has Manhattan and Chebyshev length 1, and opposite directions give negated deltas |
| AocLib.ChebyshevDistance | aoc_lib/src/lib.hpp:177-179 | the larger absolute component; DistanceBounds and DeltaOfUnit relate it to the Manhattan distance and to unit steps |
| AocLib.ManhattanDistance | aoc_lib/src/lib.hpp:181-183 | the sum of the absolute components; DistanceBounds proves it lies between the Chebyshev distance and twice it and is 0 only for the zero delta |
| AocLib.DistanceBounds | aoc_lib/src/lib.hpp:177-183 | Chebyshev distance <= Manhattan distance <= twice the Chebyshev distance, and Manhattan distance is 0 only for the zero delta |
| AocLib.TruncDiv | aoc_lib/src/lib.hpp:209-213 | C++ integer division; TruncDivProperties proves it rounds toward zero and commutes with negating either operand |
| AocLib.TruncDivProperties | aoc_lib/src/lib.hpp:209-213 | the C++ division used by operator/= rounds toward zero and commutes with negating either operand |
| AocLib.ScaleDivRoundTrip | aoc_lib/src/lib.hpp:204-213 | scaling a delta by a non-zero factor and dividing by it gives the delta back |
| AocLib.PosArithmetic | aoc_lib/src/lib.hpp:262-325 | p + (q - p) == q, adding then subtracting a delta is the identity, and adding deltas one after the other is adding their sum |
| AocLib.IntersectRanges | aoc_lib/src/lib.hpp:523-529 | the low end is the larger low end, the high end is never below low - 1, and a value lies in the result exactly when it lies in both ranges |
| AocLib.RangesOverlap | aoc_lib/src/lib.hpp:532-538 | true exactly when some value lies in both closed ranges |
| AocLib.OverlapIffNonEmpty | aoc_lib/src/lib.hpp:523-538 | two ranges overlap exactly when their intersection is not empty |
| AocMath.Powi | aoc_lib/src/util/math.hpp:42-58 | exponentiation by squaring, including the short cuts for exponents 0, 1 and 2, computes base to the power exponent |
| AocMath.PowTenMonotone | aoc_lib/src/util/math.hpp:21-31 | the powers of ten in the table strictly increase, so upper_bound sees a sorted table |
| AocMath.GenPowersOf10 | aoc_lib/src/util/math.hpp:21-31 | the table has max_digits entries and entry i is 10^(i+1) |
| AocMath.PowersOf10Ratio | aoc_lib/src/util/math.hpp:21-31 | each table entry after the first is ten times the one before |
| AocMath.DigitCountBounds | aoc_lib/src/util/math.hpp:33-40 | a number with n decimal digits lies in [10^(n-1), 10^n) |
| AocMath.DigitCountOfRange | aoc_lib/src/util/math.hpp:33-40 | every number in [10^(n-1), 10^n) has exactly n digits |
| AocMath.DigitCountOfPowers | aoc_lib/src/util/math.hpp:33-40 | 10^k has k+1 digits and 10^k - 1 has k |
| AocMath.NumDigits | aoc_lib/src/util/math.hpp:33-40 | the result is between 1 and max_digits + 1, it is 1 for zero and negative values, and it is the decimal digit count of every value the type can hold |
| Graphs.LevelsWithin | aoc_lib/src/graph_traversal.hpp:164-194 | level k of a breadth-first search from the sources holds exactly the nodes at distance k, and everything reached by level k lies within k edges |
| Graphs.LayersDisjoint | aoc_lib/src/graph_traversal.hpp:164-194 | two different levels share no node, so a search that marks nodes seen visits each at most once |
| Graphs.LayerBound | aoc_lib/src/graph_traversal.hpp:164-194 | a non-empty level lies fewer than n edges out, so the level loop runs at most n times on a graph of n nodes |
| Graphs.WalkWithin | aoc_lib/src/graph_traversal.hpp:164-194 | the end of a walk of length k from a source lies within k edges of the sources |
| Graphs.WithinReachable | aoc_lib/src/graph_traversal.hpp:164-194 | every node within k edges of the sources is reachable from them |
| Graphs.ReachableClosed | aoc_lib/src/graph_traversal.hpp:185-192 | a neighbour of a reachable node is reachable |
| Graphs.ClosedHoldsWithin | aoc_lib/src/graph_traversal.hpp:185-192 | a set holding the sources and closed under neighbours holds every node reachable from them |
| Bfs.QueueNeighbours | aoc_lib/src/graph_traversal.hpp:185-192 | the neighbours of a key not yet seen join the next level and are marked seen; nothing else is queued |
| Bfs.ExpandLevel | aoc_lib/src/graph_traversal.hpp:168-193 | either some key of the level is a target, or every key of the level is visited exactly once at the level's true distance and the next level is exactly what it reaches that was not seen before |
| Bfs.Search | aoc_lib/src/graph_traversal.hpp:151-198 | returns the first distance at which a level holds a target, or -1 exactly when no target is reachable; every node is visited at most once and with its true distance; on -1 the visited nodes are exactly the reachable ones, and otherwise every node nearer than the returned distance was visited |
| Bfs.HitAt | aoc_lib/src/graph_traversal.hpp:175-177 | a target on level d with no target reached before it makes d the returned distance |
| Bfs.Exhausted | aoc_lib/src/graph_traversal.hpp:166-167 | once a level is empty, nothing further is reachable, so returning -1 is right |
| Bfs.LevelAsWritten | aoc_lib/src/graph_traversal.hpp:168-193 | one level of the search as written, with a key marked seen only when it is expanded: afterwards every expanded key is seen and the next level holds only keys unseen at that point |
| Bfs.AsWrittenExpandsTwice | aoc_lib/src/graph_traversal.hpp:179-192 | with source 0 and edges 0->1, 0->2, 1->2, expanding level 1 in the order 1, 2 queues node 2 again, so it is visited at distance 1 and at distance 2 |
| TopoSort.Finish | aoc_lib/src/graph_traversal.hpp:430-432 | moving a node from the temporary to the permanent marks and appending it, once all its successors are finished, keeps every successor finished before its predecessor |
| TopoSort.Cycle | aoc_lib/src/graph_traversal.hpp:426-428 | meeting a temporarily marked node closes a cycle reachable from the source, so the throw is justified |
| TopoSort.Visit | aoc_lib/src/graph_traversal.hpp:420-433 | either the node and everything it newly reaches is finished, in post-order and appended after the old order, or a reachable cycle exists |
| TopoSort.Sort | aoc_lib/src/graph_traversal.hpp:413-440 | the result is a cycle error exactly when a cycle is reachable from the source, and otherwise a topological order of the reachable nodes that starts at the source, lists each once and puts each edge's tail first |
| TopoSort.SearchSorted | aoc_lib/src/graph_traversal.hpp:435-437 | the finishing order reversed is a topological order |
| TopoSort.ReverseOrder | aoc_lib/src/graph_traversal.hpp:435-437 | reversing a post-order puts every edge's tail before its head |
| TopoSort.OrderAcyclic | aoc_lib/src/graph_traversal.hpp:413-440 | a graph whose reachable part has a topological order has no reachable cycle, so the sort fails only on cyclic graphs |
| TarjanScc.PushOk | aoc_lib/src/graph_traversal.hpp:466-472 | entering strongconnect(v) gives v the next index as index and lowlink and pushes it, keeping the search invariant |
| TarjanScc.RelaxOk | aoc_lib/src/graph_traversal.hpp:474-494 | the callback for an edge to w lowers v's lowlink to w's lowlink (w just searched) or w's index (w on the stack), records a completed w's component id, and keeps the invariant |
| TarjanScc.EdgeStep | aoc_lib/src/graph_traversal.hpp:474-494 | one run of the callback keeps the invariant, marks one more edge of v processed, and only adds visited nodes |
| TarjanScc.ProcessEdges | aoc_lib/src/graph_traversal.hpp:474-494 | after the callback has run on every edge of v in order, all of v's edges are processed and the invariant holds |
| TarjanScc.VisitEdges | aoc_lib/src/graph_traversal.hpp:466-494 | v is pushed with the next index and all its edges are processed, with the invariant kept |
| TarjanScc.AddLinks | aoc_lib/src/graph_traversal.hpp:505-507 | the links gain exactly (component id, x) for each pending id x |
| TarjanScc.PopStep | aoc_lib/src/graph_traversal.hpp:500-509 | popping one more node assigns it the component id, adds its pending links and appends it to the component |
| TarjanScc.PopComponent | aoc_lib/src/graph_traversal.hpp:496-510 | the do-while loop pops exactly the nodes from v up, numbering them with the next component id |
| TarjanScc.StackSplit | aoc_lib/src/graph_traversal.hpp:496-510 | the nodes popped with v are exactly the stack nodes whose index is at least v's, so the loop stops at v |
| TarjanScc.PopSound | aoc_lib/src/graph_traversal.hpp:496-510 | popping the component of a root keeps the invariant |
| TarjanScc.Finish | aoc_lib/src/graph_traversal.hpp:495-512 | at the end of a call a root pops its component and any other node stays on the stack, with the invariant kept |
| TarjanScc.StrongConnect | aoc_lib/src/graph_traversal.hpp:463-513 | strongconnect(v) keeps the invariant, changes nothing outside what v's call reaches, and leaves the strong-connectivity facts true |
| TarjanScc.AllVisited | aoc_lib/src/graph_traversal.hpp:515-519 | once every source is visited and the stack is empty, the visited nodes are exactly those reachable from the sources |
| TarjanScc.VisitSource | aoc_lib/src/graph_traversal.hpp:516-518 | a source not visited yet is searched from, after which it is visited and the stack is empty again |
| TarjanScc.VisitSources | aoc_lib/src/graph_traversal.hpp:515-519 | after the loop over the sources every source is visited, the stack is empty and the invariant holds |
| TarjanScc.SearchAll | aoc_lib/src/graph_traversal.hpp:515-519 | the visited nodes are exactly the reachable ones, each in a completed component, and every component is strongly connected |
| TarjanScc.PushStrong | aoc_lib/src/graph_traversal.hpp:466-472 | pushing v keeps the reachability facts, with v as the only new node |
| TarjanScc.ChildStrong | aoc_lib/src/graph_traversal.hpp:479-482 | after searching an unvisited w, taking w's lowlink keeps the reachability facts |
| TarjanScc.SeenStrong | aoc_lib/src/graph_traversal.hpp:483-491 | a visited w on the stack lowering v's lowlink to w's index keeps the reachability facts |
| TarjanScc.FinishStrong | aoc_lib/src/graph_traversal.hpp:495-512 | whether v pops its component or stays on the stack, the reachability facts hold once v's call returns |
| TarjanScc.RootStrong | aoc_lib/src/graph_traversal.hpp:495-510 | when a root pops its component, the nodes left keep their facts and the popped nodes reach each other |
| TarjanScc.PoppedStrong | aoc_lib/src/graph_traversal.hpp:500-509 | the nodes a root pops reach each other, through the root |
| TarjanScc.ReachTrans | aoc_lib/src/graph_traversal.hpp:451-456 | reachability along walks is transitive |
| TarjanScc.ReachesReachable | aoc_lib/src/graph_traversal.hpp:451-456 | a node at the end of a walk from u is reachable from u |
| TarjanScc.FinalPartition | aoc_lib/src/graph_traversal.hpp:515-519 | at the end the components list every reachable node exactly once |
| TarjanScc.FinalOrder | aoc_lib/src/graph_traversal.hpp:496-510 | at the end every edge leads to a component completed no later |
| TarjanScc.FinalLinks | aoc_lib/src/graph_traversal.hpp:486-507 | at the end the links are exactly the pairs of distinct components joined by an edge, the later one first |
| TarjanScc.EdgeLink | aoc_lib/src/graph_traversal.hpp:486-507 | every edge between two components is recorded as a link |
| TarjanScc.LinkEdge | aoc_lib/src/graph_traversal.hpp:486-507 | every recorded link comes from an edge between two components |
| TarjanScc.MirrorLinks | aoc_lib/src/graph_traversal.hpp:542-546 | the loop renumbers each link (v, w) as (n-1-v, n-1-w) |
| TarjanScc.ReversedPartition | aoc_lib/src/graph_traversal.hpp:541 | reversing the components list keeps it a partition of the reachable nodes |
| TarjanScc.ReversedOrder | aoc_lib/src/graph_traversal.hpp:541 | reversing the list turns backward edges into forward ones: the components come out in topological order |
| TarjanScc.ReversedLinks | aoc_lib/src/graph_traversal.hpp:541-546 | mirroring the links gives the links of the reversed list, each pointing forwards |
| TarjanScc.ReversedStrong | aoc_lib/src/graph_traversal.hpp:541 | reversing the list keeps each component strongly connected |
| TarjanScc.StrongReachable | aoc_lib/src/graph_traversal.hpp:451-456 | members of one component reach each other |
| TarjanScc.MutuallyReachable | aoc_lib/src/graph_traversal.hpp:451-456 | two nodes joined by walks both ways lie in the same component |
| TarjanScc.Maximal | aoc_lib/src/graph_traversal.hpp:451-456 | when components partition a successor-closed set with every edge pointing forwards, nodes that reach each other share a component |
| TarjanScc.ReachedLater | aoc_lib/src/graph_traversal.hpp:451-456 | a node reached from component c lies in component c or a later one |
| TarjanScc.Tarjan | aoc_lib/src/graph_traversal.hpp:451-548 | the components partition the reachable nodes, each is strongly connected and maximal, every edge between components points forwards, and the links are exactly the forward pairs of components joined by an edge |
| ShortestPaths.PopLeast | aoc_lib/src/graph_traversal.hpp:652-654 | the popped entry is in the frontier, no entry of it comes earlier in the min-queue order, and only that entry is removed |
| ShortestPaths.Relax | aoc_lib/src/graph_traversal.hpp:678-701 | running the callback on the neighbours of the current node, in order, gives exactly the distances and frontier of the relaxation |
| ShortestPaths.RelaxKeys | aoc_lib/src/graph_traversal.hpp:685-699 | relaxing adds the neighbours to the distance map and only ever lowers a recorded distance |
| ShortestPaths.RelaxBound | aoc_lib/src/graph_traversal.hpp:685-699 | each neighbour ends within the current distance plus the weight of its edge |
| ShortestPaths.RelaxChanged | aoc_lib/src/graph_traversal.hpp:686-698 | every entry relaxing changes records the route through the current node and is pushed at its new distance |
| ShortestPaths.RelaxPushed | aoc_lib/src/graph_traversal.hpp:686-698 | every pushed entry is no earlier than the current distance |
| ShortestPaths.StaleStep | aoc_lib/src/graph_traversal.hpp:655-657 | skipping a popped entry whose distance is no longer the recorded one keeps the invariant |
| ShortestPaths.PopBound | aoc_lib/src/graph_traversal.hpp:652-658 | the entry popped next is no heavier than any walk from the source to an unsettled node |
| ShortestPaths.SettleStep | aoc_lib/src/graph_traversal.hpp:658-704 | settling a popped node that is not a target and relaxing its edges keeps the invariant: settled distances are shortest and parent links lead back to the source |
| ShortestPaths.Exhausted | aoc_lib/src/graph_traversal.hpp:652-706 | when the frontier is empty every node reachable from the source is settled |
| ShortestPaths.NoTarget | aoc_lib/src/graph_traversal.hpp:706 | when the frontier empties with no target settled, no walk from the source reaches a target |
| ShortestPaths.Nearest | aoc_lib/src/graph_traversal.hpp:659-660 | a target popped at its recorded distance is at least as near as every target |
| ShortestPaths.Reversed | aoc_lib/src/graph_traversal.hpp:661-668 | reversing a backwards walk gives a walk of the same weight |
| ShortestPaths.BackStep | aoc_lib/src/graph_traversal.hpp:664-667 | following one parent link extends the backwards walk by one edge and moves the remaining distance to the parent's |
| ShortestPaths.Reconstruct | aoc_lib/src/graph_traversal.hpp:661-668 | following the parents back to the source and reversing gives a walk from the source to the node of exactly its recorded distance |
| ShortestPaths.Dijkstra | aoc_lib/src/graph_traversal.hpp:640-706 | returns -1 and an empty path exactly when no target is reachable; otherwise a walk from the source to a target whose weight is the returned distance, no heavier than any walk from the source to a target |
| PrettyPrint.OStream.Write | aoc_lib/src/unit_test/pretty_print.hpp:240-250 | writing to the stream appends the text and changes nothing else |
| PrettyPrint.WriteEscapedChar | aoc_lib/src/unit_test/pretty_print.hpp:202-234 | appends exactly the escape of the byte: a printable byte itself, preceded by a backslash when it is a backslash or the quote; `\t`, `\n`, `\r` for tab, newline and carriage return; `\x` and two lower-case hex digits otherwise |
| PrettyPrint.PrintString | aoc_lib/src/unit_test/pretty_print.hpp:240-248 | appends the string's escaped bytes between double quotes |
| PrettyPrint.PrintChar | aoc_lib/src/unit_test/pretty_print.hpp:254-267 | appends the value as a short when char_as_number is set, otherwise the escaped character between single quotes |
| PrettyPrint.PrintBool | aoc_lib/src/unit_test/pretty_print.hpp:194-199 | appends "true" or "false" |
| PrettyPrint.PrintOrdering | aoc_lib/src/unit_test/pretty_print.hpp:178-188 | appends "less", "greater" or "equal" by the sign of the comparison |
| PrettyPrint.EscapeAllPrintable | aoc_lib/src/unit_test/pretty_print.hpp:202-234 | every character the escaper writes is printable ASCII |
| PrettyPrint.ReadOneEscape | aoc_lib/src/unit_test/pretty_print.hpp:202-234 | an escaped byte reads back as that byte and never starts with the quote character |
| PrettyPrint.HexRoundTrip | aoc_lib/src/unit_test/pretty_print.hpp:221-229 | a hex digit written with the hex flags reads back as its value |
| PrettyPrint.ReadQuotedEscapeAll | aoc_lib/src/unit_test/pretty_print.hpp:240-248 | escaped bytes followed by the closing quote read back as those bytes |
| PrettyPrint.StringRoundTrip | aoc_lib/src/unit_test/pretty_print.hpp:240-248 | a printed string reads back as the same bytes whatever follows it, so its quotes and escapes delimit it unambiguously |
| PrettyPrint.CharRoundTrip | aoc_lib/src/unit_test/pretty_print.hpp:262-266 | a character printed between single quotes reads back as the same byte whatever follows it |
| PrettyPrint.NumberRoundTrip | aoc_lib/src/unit_test/pretty_print.hpp:257-261 | a character printed as a number reads back as its value as a short: negative above 127 for a signed character type |
| PrettyPrint.DigitsRoundTrip | aoc_lib/src/unit_test/pretty_print.hpp:257-261 | the decimal digits of n read back as n |
| PrettyPrint.ReprDistinct | aoc_lib/src/unit_test/pretty_print.hpp:178-199 | the bool and ordering printers give different texts exactly for different values |
| Y2023Day05.MapEntry.Intersect | 2023/src/day05.hpp:47-55 | the result is never of negative length, and a non-empty result starts at the larger start, shifted |
| Y2023Day05.IntersectContains | 2023/src/day05.hpp:47-55 | a value lies in both the entry and the range exactly when its shifted image lies in the non-empty intersection |
| Y2023Day05.MakeEntry | 2023/src/day05.hpp:44-45 | the source range is [src_start, src_start + length) and the shift sends it onto [dest_start, dest_start + length) |
| Y2023Day05.InsertEntryFacts | 2023/src/day05.hpp:98 | inserting an entry into a sorted list keeps it sorted and adds exactly that entry |
| Y2023Day05.SortEntriesFacts | 2023/src/day05.hpp:98 | sorting the entries by the defaulted comparison (start, then length, then shift) gives a sorted permutation |
| Y2023Day05.FirstContaining | 2023/src/day05.hpp:103-106 | find_if returns the first entry containing the value, or the end when none does |
| Y2023Day05.Apply | 2023/src/day05.hpp:102-111 | apply; ApplyFirstMatch proves it shifts by the first entry containing the value and leaves other values alone, ApplyUnique that with disjoint entries the order does not matter |
| Y2023Day05.ApplyFirstMatch | 2023/src/day05.hpp:102-111 | apply shifts by the first entry that contains the value, and leaves a value no entry contains unchanged |
| Y2023Day05.ApplyUnique | 2023/src/day05.hpp:102-111 | with disjoint source ranges the value maps through the one entry containing it, whatever the order |
| Y2023Day05.SortKeepsApply | 2023/src/day05.hpp:98-111 | sorting the entries does not change what a map with disjoint source ranges does |
| Y2023Day05.ConversionMap.constructor | 2023/src/day05.hpp:78-80 | the map holds the given label and entries |
| Y2023Day05.ConversionMap.AddEntry | 2023/src/day05.hpp:83 | the entry is appended and the label kept |
| Y2023Day05.ConversionMap.ApplyInPlace | 2023/src/day05.hpp:113-116 | every input is replaced by its mapped value |
| Y2023Day05.Read | 2023/src/day05.hpp:85-100 | the map has the label and the entry lines, sorted |
| Y2023Day05.ExampleMapping | 2023/src/day05.hpp:102-111 | with entries 50 98 2 and 52 50 48, values 50..97 move up by 2, 98 and 99 go to 50 and 51, and every other value stays |
| Y2023Day05.ExampleRead | 2023/src/day05.hpp:85-100 | the example maps come out of read ordered by source start |
| Y2023Day07.ReadCard | 2023/src/day07.hpp:40-65 | digits 2-9 read as their value, T J Q K A as 10-14, and any other character leaves the card as it was |
| Y2023Day07.ReadCardNotJoker | 2023/src/day07.hpp:40-65 | reading never produces the joker |
| Y2023Day07.JokerLowest | 2023/src/day07.hpp:23-38 | the joker ranks below every other card |
| Y2023Day07.CountOf | 2023/src/day07.hpp:138-141 | a card value occurs at most as often as there are cards |
| Y2023Day07.TallySum | 2023/src/day07.hpp:138-141 | the counts vector has an entry for every card value and its entries add up to the number of cards |
| Y2023Day07.SortDescFacts | 2023/src/day07.hpp:149 | sorting with greater gives a descending permutation of the counts with the same sum |
| Y2023Day07.InsertFacts | 2023/src/day07.hpp:149 | inserting into the sorted counts adds exactly that count to the multiset, the length and the sum |
| Y2023Day07.InsertSorted | 2023/src/day07.hpp:149 | inserting keeps the counts descending |
| Y2023Day07.SortedCountsFacts | 2023/src/day07.hpp:144-149 | with the jokers set aside, the sorted counts are descending, non-negative and add up to the number of non-joker cards |
| Y2023Day07.ClassifyCounts | 2023/src/day07.hpp:151-176 | the largest count plus the jokers and the second count of five cards always select a case of the switch |
| Y2023Day07.ClassifyTotal | 2023/src/day07.hpp:137-177 | every five-card hand has a type: the switch never falls through to the assertion |
| Y2023Day07.IdentifyHand | 2023/src/day07.hpp:137-177 | the type the jokers, added to the largest remaining count, and the second count select; without jokers it is the puzzle's type from the card multiplicities; with jokers no replacement of them gives a better type and some replacement gives exactly this one |
| Y2023Day07.TypeOfJokerFree | 2023/src/day07.hpp:137-177 | for a hand without jokers, the counts-based type is the puzzle's: five alike, four alike, three and a pair, three alike, two pairs, one pair, or all different |
| Y2023Day07.BestFill | 2023/src/day07.hpp:137-177 | replacing the jokers by any other cards never gives a better type than identify_hand |
| Y2023Day07.FillAttains | 2023/src/day07.hpp:137-177 | replacing every joker by the most common other card (an ace when all are jokers) gives exactly identify_hand's type |
| Y2023Day07.FillBounds | 2023/src/day07.hpp:144-150 | after replacing the jokers, the largest count is at most the old largest count plus the jokers, and the second count does not grow when that is reached |
| Y2023Day07.FillCounts | 2023/src/day07.hpp:138-141 | replacing the jokers removes them, raises each other count by at most the jokers, and any two counts together too |
| Y2023Day07.ClassifyMonotone | 2023/src/day07.hpp:151-176 | a larger first count, or an equal one with a second count no smaller, never selects a weaker type |
| Y2023Day07.TopCounts | 2023/src/day07.hpp:144-149 | the two largest sorted counts belong to two different card values other than the joker |
| Y2023Day07.CountBelowFirst | 2023/src/day07.hpp:144-149 | no value other than the joker occurs more often than the first sorted count |
| Y2023Day07.CountsBelowSecond | 2023/src/day07.hpp:144-149 | of two different values other than the joker, one occurs at most as often as the second sorted count |
| Y2023Day07.FirstSecondAt | 2023/src/day07.hpp:149 | the first two entries of the descending sort sit at two different positions of the counts |
| Y2023Day07.SecondBound | 2023/src/day07.hpp:149 | of two entries at different positions, one is at most the second entry of the descending sort |
| Y2023Day07.AllBelowFirst | 2023/src/day07.hpp:149 | no count exceeds the first entry of the descending sort |
| Y2023Day07.LexCmpAntisymmetric | 2023/src/day07.hpp:203 | comparing card arrays lexicographically is antisymmetric and equal only on equal arrays |
| Y2023Day07.LexCmpTransitive | 2023/src/day07.hpp:203 | lexicographic comparison of card arrays is transitive |
| Y2023Day07.RankInjective | 2023/src/day07.hpp:101-109 | different hand types have different ranks |
| Y2023Day07.Compare | 2023/src/day07.hpp:200-206 | operator<=> by type, cards and bid; CompareStrongOrder proves it is a strong ordering |
| Y2023Day07.CompareStrongOrder | 2023/src/day07.hpp:200-206 | comparing hands by type, then cards, then bid is a strong ordering: antisymmetric, equal only on equal hands, and transitive |
| Y2023Day07.Hand.constructor | 2023/src/day07.hpp:185-186 | the hand holds the cards and bid, with the type identify_hand gives |
| Y2023Day07.JacksReplaced | 2023/src/day07.hpp:193 | every jack becomes a joker and every other card stays |
| Y2023Day07.JacksReplacedCounts | 2023/src/day07.hpp:193 | after the replacement no jack is left and the jokers are exactly the former jacks |
| Y2023Day07.Hand.JacksToJokers | 2023/src/day07.hpp:191-196 | the cards become the jack-replaced cards, the bid is kept and the type is recomputed |
| Y2023Day09.Diff | 2023/src/day09.hpp:25-32 | the result has one element fewer and element i is vec[i+1] - vec[i] |
| Y2023Day09.Integrate | 2023/src/day09.hpp:25-32 | the running sums of the differences start at the first reading and have one element more |
| Y2023Day09.IntegrateDifferences | 2023/src/day09.hpp:25-32 | a history is its first reading followed by the running sums of its differences, so diff loses only the first reading |
| Y2023Day09.DifferencesIntegrate | 2023/src/day09.hpp:25-32 | the differences of running sums give the summands back |
| Y2023Day09.ConstantIffZeroDifferences | 2023/src/day09.hpp:25-32 | a history is constant exactly when all its differences are zero, which is when the extrapolation stops |
| Y2023Day09.ZeroIntegrate | 2023/src/day09.hpp:25-32 | running sums of zeros stay at the start value |
| Y2023Day10.GetOutDir | 2023/src/day10.hpp:39-89 | get_out_dir per tile; its partner OutDirMatchesOpenings proves a heading is accepted exactly when it enters through one of the two openings and leaves through the other, NeverReverses and Reversible that it never turns back and can be walked backwards |
| Y2023Day10.OutDirMatchesOpenings | 2023/src/day10.hpp:39-89 | a pipe lets a traveller through exactly when it enters through one of the pipe's two openings, and it then leaves through the other |
| Y2023Day10.StraightPassThrough | 2023/src/day10.hpp:41-50 | straight pipes pass the heading through unturned, and only along their own axis |
| Y2023Day10.BendAcceptsTwo | 2023/src/day10.hpp:51-82 | each bend accepts exactly two of the four headings |
| Y2023Day10.StartAndGround | 2023/src/day10.hpp:83-86 | the start tile passes any heading through and ground passes none |
| Y2023Day10.NeverReverses | 2023/src/day10.hpp:39-89 | no tile sends a traveller back the way it came |
| Y2023Day10.Reversible | 2023/src/day10.hpp:39-89 | walking back out of a pipe's exit leads out of its entrance |
| Y2023Day11.ExpandedClosedForm | 2023/src/day11.hpp:35-45 | a coordinate moves by amount - 1 for every empty row or column before it, coordinate 0 excepted |
| Y2023Day11.ExpandedMonotone | 2023/src/day11.hpp:35-45 | with amount >= 1 expansion keeps coordinates in strict order |
| Y2023Day11.ExpansionTable | 2023/src/day11.hpp:35-45 | the table has max + 1 entries and entry c is the expansion of coordinate c |
| Y2023Day11.Occupancy | 2023/src/day11.hpp:18-32 | the occupied columns and rows are exactly the galaxies' x and y values, and max_x and max_y bound them |
| Y2023Day11.Expand | 2023/src/day11.hpp:17-54 | the galaxies come back in the same order, each moved to its expanded column and row |
| Y2023Day11.ExpandKeepsOrder | 2023/src/day11.hpp:17-54 | with amount >= 1 two galaxies keep their left-to-right order |
| Y2023Day11.ExampleColumn | 2023/src/day11.hpp:35-39 | in the worked example columns 2, 5 and 8 are empty, so with amount 2 column 9 moves to 12 |
| Y2023Day12.CheckCompatible | 2023/src/day12.hpp:32-46 | true exactly when the records have the same length and agree wherever neither is unknown |
| Y2023Day12.CompatibleSymmetric | 2023/src/day12.hpp:32-46 | compatibility does not depend on the order of the records |
| Y2023Day12.SkipGood | 2023/src/day12.hpp:89-91 | the first index from spring_idx on that is not a good spring, with only good springs skipped |
| Y2023Day12.ConditionRecord.constructor | 2023/src/day12.hpp:48-60 | the record holds the springs and groups with an empty memo |
| Y2023Day12.ConditionRecord.CountArrangements | 2023/src/day12.hpp:62-162 | returns the number of arrangements of the remaining groups in the remaining springs, and every memo entry stays equal to the count the recursion defines |
| Y2023Day12.ConditionRecord.CountAt | 2023/src/day12.hpp:101-161 | at a spring that is not good, the memoised or freshly computed count equals the recursive count, and the memo stays valid |
| Y2023Day12.MemoInsert | 2023/src/day12.hpp:159 | storing a correct count keeps the memo valid |
| Y2023Day12.ArrangementsDone | 2023/src/day12.hpp:71-87 | with every group placed there is one arrangement if no bad spring is left and none otherwise |
| Y2023Day12.ArrangementsPastEnd | 2023/src/day12.hpp:93-99 | with a group left and the springs exhausted there is no arrangement |
| Y2023Day12.ExhaustedNone | 2023/src/day12.hpp:89-99 | with a group left and only good springs ahead there is no arrangement |
| Y2023Day12.ArrangementsAt | 2023/src/day12.hpp:110-154 | at a spring that is not good the count is the count with the group placed there, when it can be, plus, for an unknown spring, the count with it good |
| Y2023Day12.SkipArrangements | 2023/src/day12.hpp:89-91 | skipping the leading good springs does not change the count |
| Y2023Day12.FindNoBad | 2023/src/day12.hpp:72-77 | the search finds no bad spring exactly when none is left from spring_idx on |
| Y2023Day12.SkipGoodFrom | 2023/src/day12.hpp:89-91 | the loop stops at the first spring that is not good |
| Y2023Day12.CanPlace | 2023/src/day12.hpp:113-141 | a group can start at spring_idx exactly when it fits, every spring in it can be bad and the spring after it, if any, can be good |
| Y2023Day12.Arrangements | 2023/src/day12.hpp:62-162 | the recursion count_arrangements computes; ArrangementsAreFillings proves that from the start it is the number of fillings of the unknown springs whose bad runs are the groups |
| Y2023Day12.KnownAtMostOne | 2023/src/day12.hpp:62-162 | a record with no unknown spring has at most one arrangement |
| Y2023Day12.ExampleOne | 2023/src/day12.hpp:62-162 | "???.### 1,1,3" has exactly one arrangement |
| Y2023Day12.ConditionRecord.Repeat | 2023/src/day12.hpp:164-176 | the new record has count copies of the springs joined by unknown springs, count copies of the groups, and an empty memo |
| Y2023Day12.RepeatSpringsLength | 2023/src/day12.hpp:164-176 | n copies of the springs with separators have n * (length + 1) - 1 springs |
| Y2023Day12.RepeatSpringsSplit | 2023/src/day12.hpp:164-176 | a + b copies are a copies, an unknown spring, then b copies |
| Y2023Day12.RepeatGroupsLength | 2023/src/day12.hpp:164-176 | n copies of the groups have n times as many groups |
| Y2023Day12.RepeatGroupsSplit | 2023/src/day12.hpp:164-176 | a + b copies of the groups are a copies followed by b copies |
| Y2023Day12.RepeatOnce | 2023/src/day12.hpp:164-176 | a count of one or less leaves the record as it is |
| Y2023Day12Fillings.ArrangementsAreFillings | 2023/src/day12.hpp:62-162 | with positive groups, count_arrangements(0, 0) is the number of ways to fill in the unknown springs so that the runs of bad springs are exactly the groups |
| Y2023Day12Fillings.FillingsAreCompatible | 2023/src/day12.hpp:32-46 | the fillings enumerated are exactly the records without unknowns that check_compatible accepts against the springs |
| Y2023Day12Fillings.FillingsDistinct | 2023/src/day12.hpp:32-46 | no filling is enumerated twice |
| Y2023Day12Fillings.MatchingNoGroups | 2023/src/day12.hpp:71-87 | with no group left exactly one filling matches if no spring is known bad, and none otherwise |
| Y2023Day12Fillings.MatchingSkipGood | 2023/src/day12.hpp:89-91 | leading good springs do not change the number of matching fillings |
| Y2023Day12Fillings.MatchingAt | 2023/src/day12.hpp:110-154 | at a spring that is not good, the matching fillings are those placing the group there plus, for an unknown spring, those making it good |
| Y2023Day12Fillings.MatchingRun | 2023/src/day12.hpp:113-141 | inside a run the filling must continue with springs that can be bad up to the group's length and then the end or a spring that can be good |
| Y2023Day12Fillings.Overrun | 2023/src/day12.hpp:113-141 | a run longer than its group, or with no group left, matches nothing |
| Y2023Day12Fillings.MatchingStep | 2023/src/day12.hpp:62-162 | the matching fillings split on the first spring made good or made bad |
| Y2023Day12Fillings.RunsBadsGood | 2023/src/day12.hpp:113-141 | a run of k bad springs ended by a good one contributes the group k |
| Y2023Day12Fillings.KnownArrangements | 2023/src/day12.hpp:62-162 | with positive groups, a record without unknown springs has one arrangement exactly when its runs of bad springs are the groups, and none otherwise |
| Y2023Day12Fillings.FillingsOfKnown | 2023/src/day12.hpp:32-46 | a record without unknowns is its own only filling |
| Y2023Day12Fillings.MatchingIsStepwise | 2023/src/day12.hpp:62-162 | the number of matching fillings equals the count taken spring by spring, each spring closing or extending the pending run of bad springs |
| Y2023Day12Fillings.SameRecursion | 2023/src/day12.hpp:62-162 | any two counts that both follow the recursion of count_arrangements at every spring and group index are equal everywhere |
| Y2023Day12Fillings.ArrangementsFollow | 2023/src/day12.hpp:62-162 | count_arrangements follows its own recursion: done, past the end, and the split at the first spring that is not good |
| Y2023Day12Fillings.MatchingFollows | 2023/src/day12.hpp:62-162 | with positive groups, the number of matching fillings follows the same recursion as count_arrangements |
| Y2023Day12Fillings.InFillings | 2023/src/day12.hpp:32-46 | a record is a filling exactly when its first spring is one the first spring allows and the rest is a filling of the rest |
| Y2023Day12Fillings.FillingLength | 2023/src/day12.hpp:32-46 | every filling is as long as the record, as check_compatible requires |
| Y2023Day13.Transpose | 2023/src/day13.hpp:23-34 | the result is the transposed grid: no rows for no rows, otherwise one column per character of the first row |
| Y2023Day13.ColumnOfRectangular | 2023/src/day13.hpp:28-32 | on a rectangular grid each built column has one character per row, the one at that row |
| Y2023Day13.TransposedAt | 2023/src/day13.hpp:23-34 | transpose(g)[i][j] == g[j][i] on a rectangular grid, and the empty grid maps to the empty grid |
| Y2023Day13.TransposeTwice | 2023/src/day13.hpp:23-34 | transposing a rectangular grid with non-empty rows twice gives it back |
| Y2023Day13.Mismatch | 2023/src/day13.hpp:38-39 | std::mismatch returns the first position where the strings differ, or the end |
| Y2023Day13.DiffsSkip | 2023/src/day13.hpp:43-44 | a second search from just after a mismatch skips only equal positions |
| Y2023Day13.CountMismatches | 2023/src/day13.hpp:37-48 | returns the number of differing positions when it is 0 or 1, and 2 when there are more |
| Y2023Day13.DiffsZero | 2023/src/day13.hpp:37-42 | there is no mismatch exactly when the rest of the rows are equal |
| Y2023Day13.CountMismatchesZero | 2023/src/day13.hpp:37-48 | the count is 0 exactly when the rows are equal |
| Y2023Day13.PairsTotalMonotone | 2023/src/day13.hpp:55-61 | adding further mirrored pairs never lowers the mismatch total, so the early break is safe |
| Y2023Day13.ScoreLine | 2023/src/day13.hpp:54-63 | the running count, with its early exit, equals the target exactly when the full mismatch total of the line does |
| Y2023Day13.FindReflection | 2023/src/day13.hpp:51-68 | the smallest line in [1, rows) whose mirrored rows differ in exactly the target number of characters, else 0 |
| Y2023Day13.ExampleHorizontal | 2023/src/day13.hpp:51-68 | the second example pattern reflects about the line above row 4, and with one smudge about the line above row 1 |
| Y2023Day14.Platform.constructor | 2023/src/day14.hpp:39-40 | the platform holds the given rows of one length |
| Y2023Day14.Platform.Transpose | 2023/src/day14.hpp:48-55 | on a square platform cell (x, y) trades places with cell (y, x) |
| Y2023Day14.Platform.FlipRows | 2023/src/day14.hpp:57-65 | every row is reversed |
| Y2023Day14.Platform.FlipColumns | 2023/src/day14.hpp:67-75 | the order of the rows is reversed |
| Y2023Day14.Platform.RotateCw | 2023/src/day14.hpp:77-80 | the cells become the old cells turned a quarter clockwise |
| Y2023Day14.Platform.RotateCcw | 2023/src/day14.hpp:82-85 | the cells become the old cells turned a quarter counter-clockwise |
| Y2023Day14.RotatedCw | 2023/src/day14.hpp:77-80 | cell (x, y) of the turned platform is old cell (y, n-1-x) |
| Y2023Day14.RotatedCcw | 2023/src/day14.hpp:82-85 | cell (x, y) of the turned platform is old cell (n-1-y, x) |
| Y2023Day14.RotateInverse | 2023/src/day14.hpp:77-85 | on a square platform rotate_ccw undoes rotate_cw and the other way round |
| Y2023Day14.RotateFour | 2023/src/day14.hpp:77-80 | four clockwise quarter turns give the platform back |
| Y2023Day14.RollStepRoundFits | 2023/src/day14.hpp:93-97 | a round rock with an empty cell before it in its run is swapped into that cell, and the run's first empty cell moves one on |
| Y2023Day14.RollStepRoundFull | 2023/src/day14.hpp:93-98 | a round rock in a run without an empty cell stays where it is |
| Y2023Day14.RollStepCube | 2023/src/day14.hpp:99-101 | a cube stays and starts a run without empty cells |
| Y2023Day14.RollStepEmpty | 2023/src/day14.hpp:102-106 | an empty cell stays, and becomes the run's first empty cell if it had none |
| Y2023Day14.Platform.RollRowDown | 2023/src/day14.hpp:87-109 | the row becomes the rolled row and every other row is unchanged |
| Y2023Day14.RolledCubes | 2023/src/day14.hpp:87-109 | rolling keeps every cube where it is and puts no cube anywhere else |
| Y2023Day14.RolledRoundCount | 2023/src/day14.hpp:87-109 | rolling keeps the number of round rocks |
| Y2023Day14.RolledSettled | 2023/src/day14.hpp:87-109 | after rolling no round rock has an empty cell just before it |
| Y2023Day14.Platform.Tilt | 2023/src/day14.hpp:111-115 | every row becomes its rolled row |
| Y2023Day14.RowLoadBounds | 2023/src/day14.hpp:117-125 | on a row no wider than the platform each round rock adds between 1 and width to the load |
| Y2023Day14.Platform.CalculateLoad | 2023/src/day14.hpp:117-125 | the load is the sum of width - x over the round rocks, row by row |
| Y2023Day14.Platform.RoundRocks | 2023/src/day14.hpp:127-135 | one flag per cell, row by row, set exactly at the round rocks |
| Y2023Day14.RoundRocksAt | 2023/src/day14.hpp:127-135 | the flag of cell (x, y) sits at index y * width + x and is set exactly at a round rock |
| Y2023Day14.ExampleRow | 2023/src/day14.hpp:87-109 | in a row with a cube in the middle each side gathers its own round rocks |
| Y2023Day15.Hash | 2023/src/day15.hpp:23-31 | the hash is below 256 |
| Y2023Day15.HashAlgorithm | 2023/src/day15.hpp:23-31 | the loop computes the hash: add each character's code, multiply by 17, keep the remainder mod 256 |
| Y2023Day15.HashEmpty | 2023/src/day15.hpp:23-31 | the empty string hashes to 0 |
| Y2023Day15.OpIndex | 2023/src/day15.hpp:60-61 | find_if returns the first '=' or '-', or the end when there is none |
| Y2023Day15.FindLens | 2023/src/day15.hpp:64-67 | find_if returns the slot of the lens with the label, or the end when there is none |
| Y2023Day15.Hashmap.constructor | 2023/src/day15.hpp:51-52 | all 256 boxes start empty |
| Y2023Day15.Hashmap.Operate | 2023/src/day15.hpp:59-83 | only the box the label hashes to changes, and it becomes the box after the step; labels stay unique in every box |
| Y2023Day15.InsertLens | 2023/src/day15.hpp:68-76 | an '=' step leaves the new focal length under the label and every other label as it was; an existing lens keeps its slot and a new one goes after all the others |
| Y2023Day15.RemoveLens | 2023/src/day15.hpp:77-81 | a '-' step leaves no lens under the label and every other label as it was, and changes nothing when the label was absent |
| Y2023Day15.NoOperation | 2023/src/day15.hpp:68-82 | a step without an operation character changes nothing |
| Y2023Day15.OperatedUnique | 2023/src/day15.hpp:59-83 | steps keep the labels in a box unique |
| Y2023Day15.FindLensIs | 2023/src/day15.hpp:64-67 | the first slot holding the label is the one find_if returns |
| Y2023Day15.Hashmap.FocusingPower | 2023/src/day15.hpp:85-95 | the sum over the boxes of box number times slot number times focal length |
| Y2023Day19.Condition.Invert | 2023/src/day19.hpp:45-47 | the comparison flips and the rating is kept |
| Y2023Day19.InvertComplements | 2023/src/day19.hpp:45-55 | for every part exactly one of a condition and its inversion matches |
| Y2023Day19.InvertInvolution | 2023/src/day19.hpp:45-47 | inverting twice gives the condition back |
| Y2023Day19.UnconditionalMatches | 2023/src/day19.hpp:72-74 | a rule without a condition matches every part |
| Y2023Day19.FirstMatch | 2023/src/day19.hpp:86-88 | find_if returns the first rule that matches, or the end when none does |
| Y2023Day19.Lookup | 2023/src/day19.hpp:85-90 | the destination is that of a rule that matches, the first one |
| Y2023Day19.LastRuleCatches | 2023/src/day19.hpp:85-90 | a workflow ending in an unconditional rule always has a matching rule, so the dereference is safe |
| Y2023Day19.EdgeConditionMeaning | 2023/src/day19.hpp:276-289 | on an edge from a conditional rule, the condition put on the path holds exactly when a part takes that edge: inverted for the next rule, as is for the rule's destination |
| Y2023Day19.Narrow | 2023/src/day19.hpp:353-359 | a condition only narrows the bounds |
| Y2023Day19.Range.constructor | 2023/src/day19.hpp:340-342 | a fresh range is 1 to 4000 |
| Y2023Day19.Range.AddCondition | 2023/src/day19.hpp:353-359 | the bounds become the narrowed bounds, so start never falls and end never rises |
| Y2023Day19.Range.Size | 2023/src/day19.hpp:361-366 | end - start + 1, or 0 when start > end, so it is positive exactly when the range is not empty |
| Y2023Day19.NarrowedMembership | 2023/src/day19.hpp:368-378 | a rating value lies in its narrowed range exactly when it is in 1..4000 and every condition on that rating holds |
| Y2023Day19.CountCombinations | 2023/src/day19.hpp:368-386 | the product of the sizes of the four narrowed ranges |
| Y2023Day19.NoConditions | 2023/src/day19.hpp:368-386 | a path without conditions allows all 4000^4 combinations |
| Y2024Day01.CountSorted | 2024/src/day01.hpp:17-28 | the recorded (value, count) pairs decode back to the input, every count is positive, and neighbouring pairs hold different values |
| Y2024Day01.DecodeLength | 2024/src/day01.hpp:17-28 | the counts add up to the length of the decoded list |
| Y2024Day01.DecodeLast | 2024/src/day01.hpp:17-28 | the last element of a decoded list belongs to the last run |
| Y2024Day01.SortedRunsIncrease | 2024/src/day01.hpp:17-28 | on sorted input the recorded values strictly increase |
| Y2024Day01.ReadInput | 2024/src/day01.hpp:30-39 | the left and right lists have one entry per whole pair read, alternating from the input |
| Y2024Day01.InterleaveReadInput | 2024/src/day01.hpp:30-39 | interleaving the two lists gives back the numbers read, less an unpaired last one |
| Y2024Day01.ExampleCounts | 2024/src/day01.hpp:17-28 | the worked example 1 2 3 3 3 4 is counted as (1,1) (2,1) (3,3) (4,1) |
| Y2024Day02.IsSafe | 2024/src/day02.hpp:21-36 | true exactly when every step is nonzero, goes the way the first step goes, and is at most 3 in size |
| Y2024Day02.SafeIffGraduallyMonotone | 2024/src/day02.hpp:21-36 | the check agrees with the puzzle's wording: all steps rise by 1 to 3, or all fall by 1 to 3 |
| Y2024Day02.Without | 2024/src/day02.hpp:40-49 | dropping one level leaves one level fewer |
| Y2024Day02.WithoutNext | 2024/src/day02.hpp:47-49 | writing level i into slot i of the report without level i gives the report without level i + 1 |
| Y2024Day02.IsSafeWithDampener | 2024/src/day02.hpp:38-52 | true exactly when dropping some single level makes the report safe |
| Y2024Day02.SafeDropFirst | 2024/src/day02.hpp:40-44 | without its first level a safe report is still safe |
| Y2024Day02.SafeImpliesDampened | 2024/src/day02.hpp:38-52 | the dampener accepts every safe report of three or more levels |
| Y2024Day02.Examples | 2024/src/day02.hpp:21-52 | 7 6 4 2 1 is safe, and 1 3 2 4 5 is safe only by dropping the 3 |
| Y2024Day05.Rules.Read | 2024/src/day05.hpp:40-49 | the anti-dependencies are those the rule lines give: each "first\|second" adds second to the set of first |
| Y2024Day05.RulesOfMeaning | 2024/src/day05.hpp:44-49 | a page's anti-dependencies are exactly the pages its rules put after it |
| Y2024Day05.Rules.IsValidOrdering | 2024/src/day05.hpp:75-111 | true exactly when no page of the ordering comes after a page it must not follow |
| Y2024Day05.ValidNext | 2024/src/day05.hpp:81-105 | a page meeting none of the pages seen before it extends a valid prefix |
| Y2024Day05.InvalidAt | 2024/src/day05.hpp:87-99 | a page whose anti-dependencies meet the pages seen makes the ordering invalid |
| Y2024Day05.ValidOrderingByRules | 2024/src/day05.hpp:40-111 | an ordering is valid exactly when no rule "a\|b" has b printed before a |
| Y2024Day05.ShortOrderingsValid | 2024/src/day05.hpp:75-111 | the empty ordering and any single page are valid |
| Y2024Day05.ValidPrefix | 2024/src/day05.hpp:75-111 | a valid ordering stays valid when its last pages are cut off |
| Y2024Day05.Example | 2024/src/day05.hpp:75-111 | with 97\|75 the ordering 75,97,47,61,53 is not valid |
| Y2024Day07.NextPowerOf10 | 2024/src/day07.hpp:53-54 | the power of ten it gives lies above its argument, so the remainder test can recover the operand's digits |
| Y2024Day07.ValuesAtLeast | 2024/src/day07.hpp:42-45 | every value the operands make left to right is positive and at least the last operand, which is why a larger operand ends the branch |
| Y2024Day07.ValuesStep | 2024/src/day07.hpp:46-60 | one step of the forward evaluation, read backwards: the predecessor a multiplication, a concatenation or an addition needs |
| Y2024Day07.IsValidHelper | 2024/src/day07.hpp:35-61 | the backward search undoing sum, product and concatenation; IsValidHelperCorrect proves it succeeds exactly when the target is a value the operands make left to right |
| Y2024Day07.IsValidHelperCorrect | 2024/src/day07.hpp:35-61 | the backward search from the target succeeds exactly when the target is one of the values the operands make left to right |
| Y2024Day07.IsValid | 2024/src/day07.hpp:30-32 | is_valid starts the search at the last operand; IsValidCorrect proves it is true exactly when the test value can be made from the operands |
| Y2024Day07.IsValidCorrect | 2024/src/day07.hpp:30-32 | an equation is valid exactly when its test value can be made from its operands, with concatenation allowed or not |
| Y2024Day07.ValuesConcatGrows | 2024/src/day07.hpp:52-58 | allowing concatenation only adds values |
| Y2024Day07.ValidWithoutConcatIsValidWith | 2024/src/day07.hpp:30-32 | an equation valid without concatenation is valid with it |
| Y2024Day07.OperandTooLarge | 2024/src/day07.hpp:42-45 | an operand above the target it must help make rules the target out |
| Y2024Day07.ConcatExamples | 2024/src/day07.hpp:52-58 | concatenation appends the operand's digits: 15 \|\| 6 is 156 and 12 \|\| 345 is 12345 |
| Y2024Day09.Fill | 2024/src/day09.hpp:43 | n copies of the value, as `resize` appends them |
| Y2024Day09.Read | 2024/src/day09.hpp:36-47 | the blocks read are those of the reader's state after every character, or none when a resize fails |
| Y2024Day09.ReadAllNone | 2024/src/day09.hpp:43 | once a resize fails, reading stays failed |
| Y2024Day09.DigitStep | 2024/src/day09.hpp:40-45 | a digit appends that many blocks, of the next file or free, and flips the run kind |
| Y2024Day09.ReadSnoc | 2024/src/day09.hpp:40-45 | reading one more character is one more step of the loop |
| Y2024Day09.ReadDigitsShape | 2024/src/day09.hpp:36-47 | on a map of digits reading succeeds, and file and free runs alternate starting with a file |
| Y2024Day09.ReadDigitsCounts | 2024/src/day09.hpp:40-45 | on a map of digits, file k gets as many blocks as the 2k-th digit says |
| Y2024Day09.ReadDigitsRange | 2024/src/day09.hpp:40-45 | on a map of digits every block is free or holds a file id already handed out |
| Y2024Day09.ReadDigitsSorted | 2024/src/day09.hpp:40-45 | on a map of digits, file ids appear in increasing order |
| Y2024Day09.Trim | 2024/src/day09.hpp:84-85 | the trimmed blocks are a prefix ending in a file block, or empty |
| Y2024Day09.FirstFree | 2024/src/day09.hpp:68-70 | the position found is a free block, or the end |
| Y2024Day09.TrimIs | 2024/src/day09.hpp:84-85 | trimming keeps exactly the blocks up to the last file block |
| Y2024Day09.TrimPad | 2024/src/day09.hpp:84-85 | free blocks at the end make no difference to trimming |
| Y2024Day09.FirstFreeIs | 2024/src/day09.hpp:68-70 | the first free block is the one found |
| Y2024Day09.CompactedPad | 2024/src/day09.hpp:84-85 | free blocks at the end make no difference to the compacted layout |
| Y2024Day09.CompactedExample | 2024/src/day09.hpp:63-86 | a small layout 0..12 compacts to 021 |
| Y2024Day09.CompactedMove | 2024/src/day09.hpp:79 | moving the last file block into the first free block is one step of compaction |
| Y2024Day09.CompactedFinal | 2024/src/day09.hpp:74-85 | once no free block precedes the free tail, compaction keeps the rest |
| Y2024Day09.DiskLayout.constructor | 2024/src/day09.hpp:23-27 | the layout holds the given blocks |
| Y2024Day09.DiskLayout.Compact | 2024/src/day09.hpp:63-86 | afterwards no block is free, the file blocks are the same multiset, no longer than before, every file block that still fits stays in place, and the result is the one-move-at-a-time compaction |
| Y2024Day09.Scan | 2024/src/day09.hpp:68-73 | the two scans stop at the next free block from the front and the previous file block from the back, keeping the scan invariant |
| Y2024Day09.SkipFiles | 2024/src/day09.hpp:68-70 | the front scan stops at a free block or the end |
| Y2024Day09.SkipFree | 2024/src/day09.hpp:71-73 | the back scan stops at a file block or before the start |
| Y2024Day09.Swap | 2024/src/day09.hpp:79-81 | the swap keeps the scan invariant and the compacted layout |
| Y2024Day09.SwapStep | 2024/src/day09.hpp:79-81 | moving the last file block into the first free block keeps the scan state and is one move of compaction |
| Y2024Day09.CompactStep | 2024/src/day09.hpp:79 | one swap is one move of compaction |
| Y2024Day09.MultisetSwap | 2024/src/day09.hpp:79 | swapping two blocks keeps the multiset of blocks |
| Y2024Day09.CompactDone | 2024/src/day09.hpp:74-77 | when the scans meet, the blocks split into the original file blocks followed by free space |
| Y2024Day09.DiskLayout.CalculateChecksum | 2024/src/day09.hpp:88-97 | the sum over blocks of position times file id |
| Y2024Day09.ChecksumNonNegative | 2024/src/day09.hpp:90-95 | once no block is free the checksum is non-negative |
| Y2024Day09.ChecksumAppend | 2024/src/day09.hpp:90-95 | blocks appended after others shift the checksum by the earlier length times their sum |
| Y2024Day13.NumeratorsOfReach | 2024/src/day13.hpp:52-57 | when some presses reach the prize, the Cramer numerators are those presses times the determinant |
| Y2024Day13.MinPresses | 2024/src/day13.hpp:51-68 | Cramer's rule with an exactness check; MinPressesFindsSolution, MinPressesReachesPrize and MinPressesNoSolution prove it returns the unique presses reaching the prize, and (-1, -1) exactly when none do |
| Y2024Day13.MinPressesFindsSolution | 2024/src/day13.hpp:51-68 | whatever presses reach the prize are exactly the pair `min_presses` returns |
| Y2024Day13.CramerFirstRow | 2024/src/day13.hpp:64-65 | the quotients of the numerators solve the x equation |
| Y2024Day13.CramerSecondRow | 2024/src/day13.hpp:64-65 | the quotients of the numerators solve the y equation |
| Y2024Day13.MinPressesReachesPrize | 2024/src/day13.hpp:64-65 | when both numerators divide, the presses returned reach the prize |
| Y2024Day13.MinPressesNoSolution | 2024/src/day13.hpp:64-67 | when no whole numbers of presses reach the prize, the answer is (-1, -1) |
| Y2024Day13.Example | 2024/src/day13.hpp:51-68 | A (94, 34), B (22, 67) and prize (8400, 5400) take 80 A and 40 B presses |
| Y2024Day14.Robots.Read | 2024/src/day14.hpp:71-80 | every robot read is stored in order with its position, velocity and tile index, and the count grid holds the number of robots on each tile |
| Y2024Day14.Robots.Update | 2024/src/day14.hpp:82-89 | each robot moves one second on with its tile index recomputed, and the count grid still matches the robots |
| Y2024Day14.Robots.SafetyFactor | 2024/src/day14.hpp:91-110 | the product of the numbers of robots in the four quadrants, skipping those on the middle row or column |
| Y2024Day14.WrapIsModulo | 2024/src/day14.hpp:41-50 | for a velocity smaller than the room, one add or subtract is the sum taken modulo the room's size, and lands inside it |
| Y2024Day14.Moved | 2024/src/day14.hpp:39-51 | Robot::update adds the velocity and wraps once; MovedIsModular proves a slow robot stays in the room at its position plus velocity modulo the room size |
| Y2024Day14.MovedIsModular | 2024/src/day14.hpp:39-51 | a robot's update keeps it inside the room, at its position plus its velocity modulo the room's size |
| Y2024Day14.StepWellPlaced | 2024/src/day14.hpp:83-88 | a robot moved one second on is still in the room, slow, with its tile index up to date |
| Y2024Day14.CountAtReplace | 2024/src/day14.hpp:84-87 | moving one robot moves one unit of count from its old tile to its new one |
| Y2024Day14.CountsAfterMove | 2024/src/day14.hpp:84-87 | decrementing the old tile and incrementing the new one keeps the count grid matching the robots |
| Y2024Day14.CountsAfterAdd | 2024/src/day14.hpp:75-77 | counting a new robot on its tile keeps the count grid matching the robots |
| Y2024Day14.QuadrantsPartition | 2024/src/day14.hpp:93-107 | every robot is on a middle line or in exactly one of the four quadrants |
| Y2024Day14.QuadrantCorners | 2024/src/day14.hpp:100-106 | the quadrant index has bit 0 set exactly right of the middle column and bit 1 exactly below the middle row |
| Y2024Day14.Example | 2024/src/day14.hpp:39-51 | a robot at (2, 4) with velocity (2, -3) in an 11 by 7 room is at (4, 1) after one second and (6, 5) after two |
| Y2024Day15.TilesPut | 2024/src/day15.hpp:166 | overwriting one cell trades its old tile for the new one |
| Y2024Day15.TilesSwap | 2024/src/day15.hpp:166 | a swap of two cells keeps every tile on the floor |
| Y2024Day15.StepFacts | 2024/src/day15.hpp:159-167 | when a listed cell's turn comes, nothing has moved into it, it still holds its own tile, and its target is empty (the assertion at line 164) |
| Y2024Day15.ShiftStep | 2024/src/day15.hpp:160-167 | moving a listed cell whose target is not yet filled is a swap with that empty target |
| Y2024Day15.ShiftSkip | 2024/src/day15.hpp:161-162 | a cell whose target was already filled changes nothing |
| Y2024Day15.ShiftNothing | 2024/src/day15.hpp:147-177 | moving no cells leaves the floor as it was |
| Y2024Day15.TargetsStep | 2024/src/day15.hpp:158-161 | a cell's target is already in the moved set exactly when the same cell was listed before |
| Y2024Day15.ShiftTiles | 2024/src/day15.hpp:159-168 | carrying out the moves, or any prefix of them, keeps every tile on the floor |
| Y2024Day15.ShiftCarries | 2024/src/day15.hpp:159-168 | whatever was in a moved cell is found one step further on |
| Y2024Day15.Heading | 2024/src/day15.hpp:89 | the step for a direction is one cell along one axis, with y growing downwards |
| Y2024Day15.FindRobot | 2024/src/day15.hpp:45-51 | the robot is put on the last '@' of the floor in row-major order |
| Y2024Day15.WidenRowPairs | 2024/src/day15.hpp:55-77 | a row written pair by pair is the widened row |
| Y2024Day15.NarrowWiden | 2024/src/day15.hpp:58-76 | widening loses nothing: each pair of cells gives back the tile it came from |
| Y2024Day15.WidenRobot | 2024/src/day15.hpp:71-74 | on the wide floor the robot stands on the left half of its old cell |
| Y2024Day15.WritePair | 2024/src/day15.hpp:56-57 | two neighbouring cells of a row get the given tiles and nothing else changes |
| Y2024Day15.Warehouse.constructor | 2024/src/day15.hpp:45-51 | the floor is the lines given and the robot stands on the last '@' |
| Y2024Day15.Warehouse.Blank | 2024/src/day15.hpp:30 | a floor of the given size with every cell a NUL character and no robot |
| Y2024Day15.Warehouse.TryMove | 2024/src/day15.hpp:86-144 | a step onto the edge or a wall is blocked, a step onto empty floor needs no pushes, and any list returned holds boxes that can go one step, in order, clearing the robot's way |
| Y2024Day15.Warehouse.PlanSchedulable | 2024/src/day15.hpp:155-168 | the boxes found and then the robot can be moved one at a time, in list order, each into an empty cell |
| Y2024Day15.Warehouse.PlanFacts | 2024/src/day15.hpp:147-170 | a successful plan is a schedule that carries the robot's tile one step |
| Y2024Day15.Warehouse.EarlierTarget | 2024/src/day15.hpp:156-167 | a cell an earlier entry moves into was itself listed before that entry |
| Y2024Day15.Warehouse.MoveRobot | 2024/src/day15.hpp:146-177 | a blocked move changes nothing; otherwise the boxes and the robot move one step in list order, the robot ends one step on, and every tile is kept |
| Y2024Day15.Warehouse.ExecuteMoves | 2024/src/day15.hpp:158-168 | the swap loop leaves the floor with every listed cell moved once, keeping every tile |
| Y2024Day15.Warehouse.ExecuteMove | 2024/src/day15.hpp:160-167 | one pass of the loop adds the cell's target to the moved set and moves the cell unless its target was taken |
| Y2024Day15.Warehouse.SwapCells | 2024/src/day15.hpp:166 | the floor with the two cells exchanged |
| Y2024Day15.Warehouse.GpsSum | 2024/src/day15.hpp:179-187 | 100 y + x summed over the small boxes and the left halves of the wide ones |
| Y2024Day15.Warehouse.Widen | 2024/src/day15.hpp:53-79 | a new floor with every tile doubled side by side and the robot on the left half of its cell |
| Y2024Day15.Warehouse.WidenRowInto | 2024/src/day15.hpp:55-77 | one row of the new floor is the widened row and the other rows are unchanged |
| Y2024Day17.OpcodeOf | 2024/src/day17.hpp:28-37 | a code names an instruction exactly when it is below 8, and then the one with that value |
| Y2024Day17.OpcodeRoundTrip | 2024/src/day17.hpp:28-37 | an opcode's value names that opcode again |
| Y2024Day17.Only | 2024/src/day17.hpp:39-44 | the mask of one register has that register's flag and no other |
| Y2024Day17.Union | 2024/src/day17.hpp:66 | the union of two masks has a register's flag exactly when either has it |
| Y2024Day17.XorBound | 2024/src/day17.hpp:171-181 | the exclusive or of two n-bit values has n bits |
| Y2024Day17.Shr | 2024/src/day17.hpp:138 | a right shift never grows a value, and shrinks a positive one by a positive amount |
| Y2024Day17.ComboOperand | 2024/src/day17.hpp:102-117 | operands 0 to 3 are themselves, 4 to 6 are the registers A, B and C, and any other fails the assertion |
| Y2024Day17.Execute | 2024/src/day17.hpp:131-206 | an instruction fails exactly when its combo operand is out of range, and only `out` outputs, a single octal digit |
| Y2024Day17.Step | 2024/src/day17.hpp:125-227 | one turn of the loop fails exactly on a bad combo operand; `jnz` goes to its operand when A is not zero and every other case moves on by two |
| Y2024Day17.StepOutput | 2024/src/day17.hpp:197-206 | a turn outputs at most one octal digit, and only for `out` |
| Y2024Day17.Octal | 2024/src/day17.hpp:192-198 | `& 0b111` gives a digit in [0, 8) |
| Y2024Day17.RunProgram | 2024/src/day17.hpp:122-228 | the outputs, in order, and how the run ended are those of running Step from instruction 0 |
| Y2024Day17.Run | 2024/src/day17.hpp:122-228 | the run of the machine from a state; RunProgram is proved to compute it, RunStep, OutputsAreOctal and MoreFuel prove its step structure, its octal outputs and its independence of surplus fuel |
| Y2024Day17.RunStep | 2024/src/day17.hpp:125-227 | a run is one step's output followed by the run from the next state |
| Y2024Day17.OutputsAreOctal | 2024/src/day17.hpp:197-206 | every output is an octal digit |
| Y2024Day17.MoreFuel | 2024/src/day17.hpp:125 | a run that halts or fails within some number of steps ends the same way with more |
| Y2024Day17.OutputsPerStep | 2024/src/day17.hpp:197-206 | a run outputs at most once per step |
| Y2024Day17.WritesCover | 2024/src/day17.hpp:55-95 | a register outside an instruction's `writes` mask keeps its value |
| Y2024Day17.ReadsCover | 2024/src/day17.hpp:55-95 | two states that agree on an instruction's `reads` mask step alike, to the same place, with the same output and the same values written |
| Y2024Day17.ExecuteReads | 2024/src/day17.hpp:55-95 | an instruction's effect depends only on the registers its `reads` mask names |
| Y2024Day17.StepFits | 2024/src/day17.hpp:97-101 | no instruction makes a register wider than 64 bits, so nothing wraps around |
| Y2024Day17.ExecuteFits | 2024/src/day17.hpp:132-196 | each register update of the switch stays within 64 bits |
| Y2024Day17.IsPossibleQuine | 2024/src/day17.hpp:239-305 | no error exactly when the program has at least three instructions, exactly one `adv 3` and one `out`, a `jnz 0` only at the end, and reads B and C only after assigning them; "too small" exactly when it has fewer than 6 codes |
| Y2024Day17.CheckInstruction | 2024/src/day17.hpp:249-293 | an error rules the program out; passing lets the shape extend over the instruction, with no earlier `adv` or `out` of the same kind |
| Y2024Day17.Rejected | 2024/src/day17.hpp:250-285 | an instruction off the shape rules the program out |
| Y2024Day17.Repeated | 2024/src/day17.hpp:266-273 | a second `adv` or `out` rules the program out |
| Y2024Day17.ScanNext | 2024/src/day17.hpp:248-294 | after one more instruction that passes, the flags say what the instructions so far assign and contain |
| Y2024Day17.ScanDone | 2024/src/day17.hpp:248 | when the loop ends it has seen every instruction |
| Y2024Day17.TooSmallRejected | 2024/src/day17.hpp:243-245 | a program shorter than 6 codes is never a possible quine |
| Y2024Day17.QuineEndsWithJnz | 2024/src/day17.hpp:275-286 | a possible quine has even length and ends with `jnz 0`, its only jump |
| Y2024Day17.BstExample | 2024/src/day17.hpp:186-196 | bst 6 with C = 9 sets B to 1 |
| Y2024Day17.BxlExample | 2024/src/day17.hpp:165-175 | bxl 7 with B = 29 sets B to 26 |
| Y2024Day17.RunExample | 2024/src/day17.hpp:122-228 | with A = 10 the program 5,0,5,1,5,4 outputs 0,1,2 and halts |
| Y2024Day19.ColorIndex | 2024/src/day19.hpp:25-31 | each colour's value is one of the five child slots |
| Y2024Day19.ColorAt | 2024/src/day19.hpp:25-31 | the colour in a child slot has that slot's value |
| Y2024Day19.ColorCharRoundTrip | 2024/src/day19.hpp:39-53 | the letters w, u, b, r, g and the five colours correspond one to one |
| Y2024Day19.StrToColors | 2024/src/day19.hpp:35-60 | the colours have the string's length, and each is the colour its letter names |
| Y2024Day19.Walk | 2024/src/day19.hpp:127-133 | a walk that stays on the trie ends at a node of the list |
| Y2024Day19.DesignChecker.constructor | 2024/src/day19.hpp:87 | a new checker holds only the root, and so no pattern |
| Y2024Day19.DesignChecker.GetChild | 2024/src/day19.hpp:93-100 | the node's child for the colour exists afterwards; every walk that succeeded still ends where it did, and the stored patterns are unchanged |
| Y2024Day19.DesignChecker.AddPattern | 2024/src/day19.hpp:102-108 | the stored patterns are the old ones plus the pattern added |
| Y2024Day19.DesignChecker.Check | 2024/src/day19.hpp:110-113 | the number of ways to split the design into stored patterns |
| Y2024Day19.DesignChecker.CheckHelper | 2024/src/day19.hpp:117-140 | the number of ways to split the design from `start` into stored patterns, with every memo entry filled in holding that count for its position |
| Y2024Day19.EmptyTrie | 2024/src/day19.hpp:87 | the trie of the root alone walks only the empty word, to a non-terminal node |
| Y2024Day19.WalkWord | 2024/src/day19.hpp:102-107 | the node a walk reaches is the one labelled with the colours walked |
| Y2024Day19.AddChildLinked | 2024/src/day19.hpp:95-98 | appending a child keeps every node labelled with the path that leads to it |
| Y2024Day19.AddChildWalk | 2024/src/day19.hpp:95-98 | appending a child keeps every walk that succeeded and adds no stored pattern |
| Y2024Day19.MarkTerminal | 2024/src/day19.hpp:107 | marking the node a pattern reaches stores exactly that pattern more |
| Y2024Day19.SameLinks | 2024/src/day19.hpp:107 | walks depend only on the child links |
| Y2024Day19.NoneStaysNone | 2024/src/day19.hpp:130-133 | once a walk falls off the trie, every longer walk does too |
| Y2024Day19.DeadEnd | 2024/src/day19.hpp:130-133 | after the trie runs out, no later position ends a pattern |
| Y2024Day19.WaysFromIncludes | 2024/src/day19.hpp:134-136 | the count from a position includes every split whose first pattern ends further on |
| Y2024Day19.SplitCounted | 2024/src/day19.hpp:117-140 | any split of the design into non-empty stored patterns is counted |
| Y2024Day21.ParseKey | 2024/src/day21.hpp:47-77 | a character reads as a key exactly when it is a digit or one of ^ v V < > A |
| Y2024Day21.KeyTextRoundTrip | 2024/src/day21.hpp:47-102 | writing a key and reading it back gives the key, and reading is ambiguous only in accepting V as well as v |
| Y2024Day21.KeyPosition | 2024/src/day21.hpp:115-125 | KEY_POSITIONS; KeyPositions proves no key sits on the gap and every key lies on its own keypad |
| Y2024Day21.KeyPositions | 2024/src/day21.hpp:115-125 | no key sits on the gap at (0, 0), and each key lies on its own keypad's side of it |
| Y2024Day21.WalkConcat | 2024/src/day21.hpp:179-192 | a walk of two key runs is the second walked from where the first ends, and is clear exactly when both parts are |
| Y2024Day21.Move | 2024/src/day21.hpp:134-155 | the outputs with the key appended once per unit the displacement asks of it, and never for a negative count |
| Y2024Day21.MoveArm | 2024/src/day21.hpp:131-172 | the outputs with the arrows of the path from `from` to `to` appended |
| Y2024Day21.MoveKeysAreArrows | 2024/src/day21.hpp:157-171 | the path holds only arrows, never ACTIVATE |
| Y2024Day21.MoveKeysShortest | 2024/src/day21.hpp:157-171 | the path has one arrow per unit of Manhattan distance, so it is a shortest path |
| Y2024Day21.MoveKeysClear | 2024/src/day21.hpp:157-171 | between two keys of one keypad, the path ends at `to` and never passes over the gap or leaves the keypads |
| Y2024Day21.CheckKeys | 2024/src/day21.hpp:174-230 | true exactly when the arrows walk the arm over every expected position in turn, ACTIVATE finds it there each time, it never rests on the gap or outside the box, and no expected position is left over |
| Y2024Day21.CheckCountsActivations | 2024/src/day21.hpp:193-228 | a sequence that passes the check presses ACTIVATE once per expected position |
| Y2024Day21.CheckArrows | 2024/src/day21.hpp:180-192 | the check walks arrows in front of the rest, then goes on from where they end |
| Y2024Day21.ControlArm | 2024/src/day21.hpp:236-255 | the outputs are, input by input, the arm's path from the key it rests over followed by ACTIVATE |
| Y2024Day21.ExpandActivations | 2024/src/day21.hpp:239-244 | the expansion holds one ACTIVATE per input and ends with one |
| Y2024Day21.ControlArmActivations | 2024/src/day21.hpp:239-244 | control_arm presses ACTIVATE exactly once per input, last in each segment |
| Y2024Day21.ArmSegmentSafe | 2024/src/day21.hpp:240-243 | a segment between two keys of one keypad walks safely from the first to the second and then presses ACTIVATE |
| Y2024Day21.ExpandChecks | 2024/src/day21.hpp:245-253 | the expansion of keys from one keypad passes check_keys from the starting key |
| Y2024Day21.ControlArmChecks | 2024/src/day21.hpp:245-253 | the debug assertion holds: for inputs all from one keypad the output steers the arm over exactly those keys, never over the gap or off the keypads |
| Y2024Day21.CostSeqHuman | 2024/src/day21.hpp:292-296 | at the human's layer every key costs one press |
| Y2024Day21.CostSeqExpand | 2024/src/day21.hpp:297-310 | pressing keys one layer up costs what pressing their expansion costs one layer down |
| Y2024Day21.ExpandIterCost | 2024/src/day21.hpp:357-362 | the breadth-first count is the layered press count |
| Y2024Day21.PressSettled | 2024/src/day21.hpp:283-315 | with the lower arms at rest on ACTIVATE, press_key counts the layered cost and records only the key pressed at its own layer |
| Y2024Day21.PressAllSettled | 2024/src/day21.hpp:308-310 | pressing a run of keys with the lower arms at rest costs the layered cost of the run |
| Y2024Day21.MovesLikeArmSettles | 2024/src/day21.hpp:298-301 | every segment move_arm produces ends with the one ACTIVATE that presses its key |
| Y2024Day21.KeySequence | 2024/src/day21.hpp:298-301 | the keys sent one layer down are the path from the resting key followed by ACTIVATE |
| Y2024Day21.RobotController.constructor | 2024/src/day21.hpp:270-271 | every layer's arm starts over ACTIVATE and the memo table is empty |
| Y2024Day21.RobotController.PressKey | 2024/src/day21.hpp:283-315 | the count and new resting keys are those of press_key's recursion, and the memo table is untouched |
| Y2024Day21.RobotController.PressKeyMemo | 2024/src/day21.hpp:317-355 | the same count as the unmemoised layered cost, with only the own layer's resting key changed, and every memo entry still right |
| Y2024Day21.RobotController.PressSequence | 2024/src/day21.hpp:347-349 | the layered cost of the sequence one layer down, whose arm ends over its last key |
| Y2024Day21.RobotController.CountPresses | 2024/src/day21.hpp:382-388 | the layered cost of the keys at the given layer, whose arm ends over the last key pressed |
| Y2024Day21.CountPressesBfs | 2024/src/day21.hpp:357-362 | the length after applying control_arm `layers` times, which is the layered cost |
| Y2024Day21.CountPressesDfs | 2024/src/day21.hpp:364-371 | the layered cost of the keys |
| Y2024Day21.CountPressesMemo | 2024/src/day21.hpp:373-380 | the layered cost of the keys, the same as the depth-first count |
| Y2024Day21.CostOneRobot | 2024/src/day21.hpp:297-310 | one robot up, a key costs its distance from the resting key plus the ACTIVATE press |
| Y2024Day21.CountExample | 2024/src/day21.hpp:357-380 | pressing 029A one robot up takes twelve presses |
| Y2024Day22.AddPriceChange | 2024/src/day22.hpp:42-45 | the window loses its oldest change and ends with the new one |
| Y2024Day22.XorShift | 2024/src/day22.hpp:68-76 | the new secret fits in 24 bits |
| Y2024Day22.Price | 2024/src/day22.hpp:63 | the price is a digit from 0 to 9 |
| Y2024Day22.FirstStep | 2024/src/day22.hpp:81 | the shift left by 6 is mixing in the secret times 64 and pruning to 24 bits |
| Y2024Day22.SecondStep | 2024/src/day22.hpp:82 | the shift right by 5 is mixing in the secret divided by 32 and pruning |
| Y2024Day22.ShiftRightIsDivision | 2024/src/day22.hpp:71-75 | a logical shift right by 5 divides by 32 |
| Y2024Day22.ThirdStep | 2024/src/day22.hpp:83 | the shift left by 11 is mixing in the secret times 2048 and pruning |
| Y2024Day22.NextSecret | 2024/src/day22.hpp:81-83 | the three xorshift steps of evolve; NextSecretIsPuzzleNext proves they compute the puzzle's mix-and-prune next secret |
| Y2024Day22.NextSecretIsPuzzleNext | 2024/src/day22.hpp:81-83 | the three shifts compute the puzzle's next secret number, which fits in 24 bits |
| Y2024Day22.TryEmplace | 2024/src/day22.hpp:88 | the buyer's entry for the sequence holds its first price: a new price goes in only when none was there, and no other entry changes |
| Y2024Day22.Market.constructor | 2024/src/day22.hpp:116-117 | the shared record of first prices starts empty |
| Y2024Day22.PriceSequence.constructor | 2024/src/day22.hpp:58-59 | a buyer starts with its initial secret, its number, and a window of zero changes |
| Y2024Day22.PriceSequence.Evolve | 2024/src/day22.hpp:78-90 | the secret moves on to the next one, the window records the price change, and from iteration 3 on the buyer's first price for the window is recorded |
| Y2024Day22.PriceChangeBounds | 2024/src/day22.hpp:84-85 | each recorded change lies between -9 and 9 |
| Y2024Day22.WindowAfterFour | 2024/src/day22.hpp:44 | four changes fill the window whatever it held before |
| Y2024Day22.FirstPriceKept | 2024/src/day22.hpp:87-88 | a buyer's first price for a sequence is never overwritten |
| Y2024Day22.Example | 2024/src/day22.hpp:78-85 | the secret 123 is followed by 15887950 and then 16495136, with prices 3 and 0 |
| Y2024Day25.CheckFit | 2024/src/day25.hpp:25-39 | true exactly when one is a key, the other a lock, and in every column the two pins add up to at most 5; the answer does not depend on which of the two asks |
| Y2024Day25.HashCountBound | 2024/src/day25.hpp:51-58 | a column never counts more '#' than there are rows |
| Y2024Day25.ReadSchematic | 2024/src/day25.hpp:42-64 | a schematic is stored exactly when five pin rows and the closing row follow the top line, and nothing otherwise; it is then a key exactly when the top line starts with '.', and each pin is the number of '#' in its column over the five pin rows, a height from 0 to 5 |
| Y2024Day25.TruncatedGivesNothing | 2024/src/day25.hpp:42-64 | a key cut off after two pin rows reads as nothing; the same key with all five pin rows and its closing row reads as key 2,1,2,1,1 |
| Y2024Day25.ReadPinsBounded | 2024/src/day25.hpp:51-58 | pins read from five rows are heights from 0 to 5 |
| Y2024Day25.Example | 2024/src/day25.hpp:25-39 | lock 0,5,3,4,3 does not fit key 5,0,2,1,3, but fits key 3,0,2,0,1 |
| Y2025Day03.MaxElement | 2025/src/day03.hpp:34 | the first position holding the largest digit of the range |
| Y2025Day03.Greedy | 2025/src/day03.hpp:32-38 | the greedy choice picks `k` positions, all within the bank from `start` on |
| Y2025Day03.MaxJoltage | 2025/src/day03.hpp:29-40 | the value is the number spelled by the greedy choice of `count` batteries |
| Y2025Day03.RoundsSpellGreedy | 2025/src/day03.hpp:32-38 | the remaining rounds append the digits of the greedy choice to the value so far |
| Y2025Day03.ValueSnoc | 2025/src/day03.hpp:35-36 | appending a digit shifts the value one place left and adds it |
| Y2025Day03.ValueBounds | 2025/src/day03.hpp:35-36 | a number of k digits lies in [0, 10^k) |
| Y2025Day03.LeadingDigitDecides | 2025/src/day03.hpp:32-38 | of two numbers with equally many digits, the larger leading digit wins |
| Y2025Day03.ChoiceSpread | 2025/src/day03.hpp:33-34 | a choice of k batteries starting at a position needs k positions from there on |
| Y2025Day03.GreedyIsChoice | 2025/src/day03.hpp:32-38 | the greedy positions are strictly increasing, so they are a choice of batteries |
| Y2025Day03.GreedyIsMaximal | 2025/src/day03.hpp:29-40 | no choice of k batteries from `start` on spells a larger number than the greedy one |
| Y2025Day03.GreedyStep | 2025/src/day03.hpp:33-37 | one greedy round keeps the greedy choice at least as large as any other |
| Y2025Day03.FirstPickBounded | 2025/src/day03.hpp:33-34 | any choice's first digit is at most the greedy pick's, and a tie cannot come before it |
| Y2025Day03.ChoiceTail | 2025/src/day03.hpp:37 | the rest of a choice after the first pick is a choice after that pick |
| Y2025Day03.FirstPickDecides | 2025/src/day03.hpp:35-36 | a choice whose first digit is smaller spells a smaller number |
| Y2025Day03.SameLeadingDigit | 2025/src/day03.hpp:35-36 | numbers with the same leading digit and length compare as their remaining digits do |
| Y2025Day03.FirstPickTies | 2025/src/day03.hpp:33-37 | choices with the same first digit compare as their remaining digits do |
| Y2025Day03.MaxJoltageIsMaximal | 2025/src/day03.hpp:29-40 | max_joltage returns the largest number any choice of `count` batteries spells |
| Y2025Day03.Example | 2025/src/day03.hpp:29-40 | from 81119, two batteries give 89 |
| Y2025Day06.Symbol | 2025/src/day06.hpp:25-28 | the worksheet characters '+' and '*' name exactly PLUS and TIMES |
| Y2025Day06.Init | 2025/src/day06.hpp:33 | the initial value is the identity of the operation, on either side |
| Y2025Day06.Apply | 2025/src/day06.hpp:35-41 | a + b for PLUS and a * b otherwise; ApplyAssociative proves both associative |
| Y2025Day06.ApplyAssociative | 2025/src/day06.hpp:35-41 | both operations are associative |
| Y2025Day06.FoldLeftFromAcc | 2025/src/day06.hpp:54 | a left fold from an accumulator combines the accumulator with the sum or product of the numbers |
| Y2025Day06.Calculate | 2025/src/day06.hpp:48-55 | the left fold from the identity; CalculateIsAnswer proves it is the sum or the product of the inputs |
| Y2025Day06.CalculateIsAnswer | 2025/src/day06.hpp:48-55 | calculate gives the sum of the inputs for '+' and their product for '*' |
| Y2025Day06.CalculateEmpty | 2025/src/day06.hpp:33-54 | a problem without numbers answers 0 for '+' and 1 for '*' |
| Y2025Day06.AnswerAppend | 2025/src/day06.hpp:48-55 | the sum or product of two lists joined combines the answers of the two lists |
| Y2025Day06.CalculateAppend | 2025/src/day06.hpp:48-55 | a problem split in two combines the answers of its halves |
| Y2025Day06.Example | 2025/src/day06.hpp:48-55 | 123 * 45 * 6 is 33210 and 328 + 64 + 98 is 490 |

## Left out

- Every C++ int, long and std::size_t is an unbounded integer here, and wrap-around is not modelled anywhere. This covers the long keys of RangeLookup, the int sums in dijkstra, math::powi, the index arithmetic of Grid, the long checksum of 2024 day 9 and the long counts of 2024 days 19 and 21. Where a single member's overflow matters it also has its own line below.
- PairingHeaps: the heap holds int elements ordered by std::less, the largest element at the root. The template's element type and comparator parameters are not modelled.
- Y2024Day02.IsSafe: requires at least two levels. With fewer, the source throws std::out_of_range from levels.at(1) (2024/src/day02.hpp:22).
- Y2024Day09.DiskLayout.CalculateChecksum: does not model the assertion that no block is empty (2024/src/day09.hpp:92), which is live unless aoc::FAST is set. An empty block is the value -1 here and is summed like any file id.
- Y2024Day15.Warehouse.TryMove: returns None for a tile it does not handle. The source prints a message and reaches assert(false) (2024/src/day15.hpp:141-143).
- Y2023Day05: read_seeds and the stream parts of ConversionMap::read are not modelled. Read takes the already-split entry lines as numbers.
- Y2023Day07: read_hands is not modelled; it is stream parsing only.
- Y2023Day09: read_history is not modelled; it is stream parsing only.
- Y2023Day10: read_pipes, PipeGrid and PipeIterator are not modelled. Only get_out_dir is.
- Y2023Day11: read_image is not modelled. Expand takes the galaxy positions directly.
- Y2023Day12: read_records is not modelled; it is stream parsing only.
- Y2023Day13: read_grids is not modelled; it is stream parsing only.
- Y2023Day14: read_platform is not modelled. The Platform constructor takes the rows directly.
- Y2023Day15: read_steps is not modelled. Steps are given already split into label, operation and focal length.
- Y2023Day19: Part2Solver, PartCategorizer and the operator>> parsers for conditions and workflows are not modelled. They are a search driver and stream parsing; count_combinations and the range arithmetic they use are modelled.
- Y2024Day02: read_input is not modelled; it is stream parsing only.
- Y2024Day05.Rules.Read: takes the rule pairs directly. Parsing the page orderings is not modelled.
- Y2024Day07: operator>> and read_input are not modelled; they are stream parsing only.
- Y2024Day13: operator>>, read_input and the debug operator<< are not modelled; they are stream parsing and printing.
- Y2024Day14: operator>> for robots and both operator<< printers are not modelled. Robots.Read takes the parsed positions and velocities.
- Y2024Day14: Robots::calc_entropy is not modelled, because it is floating-point arithmetic.
- Y2024Day09: operator<< is not modelled; it is printing only.
- Y2024Day15: read_input (the move list) and operator<< are not modelled; they are stream parsing and printing.
- Y2024Day17: read_input is not modelled. solve_quine is not modelled either: it is a search driver over is_possible_quine and run_program, and both of those are modelled.
- Y2024Day19: read_input is not modelled; it is stream parsing only.
- Y2024Day21: read_input and Code::numeric_value are not modelled; they are stream parsing and digit parsing. The virtual on_keypress hook, which press_key calls on every press (2024/src/day21.hpp:278-280, 313), and the aoc::DEBUG trace output of press_key and press_key_memo are not modelled either; they are observation only and change no count.
- Y2024Day22: find_best_sell_sequence is not modelled. It is a maximum over the shared price table, and filling that table (Evolve) is modelled.
- Y2024Day22.Market: the static member sequence_prices is an explicit object that each PriceSequence is handed. Sharing it across all instances implicitly is not modelled.
- Y2024Day25: read_input is not modelled; it repeats operator>> until the stream fails. ReadSchematic takes the first line after the skipped whitespace and the lines that follow it. It does not model a pin row shorter than five characters, which the source indexes past its end.
- Y2025Day03: read_input is not modelled; it is stream parsing only.
- Y2025Day06: read_input is not modelled. It is a stream transpose of the worksheet, so calculate takes the operands and operator directly.
- AocLib: read_csv is not modelled; it is stream parsing only.
- Y2024Day17.RunProgram: halts when ip + 1 >= |program|. The source reads program[ip + 1] out of bounds when ip is the last index.
- Y2024Day17.RunProgram: takes a fuel bound and reports running out of it. The source loop has no bound and need not terminate.
- Y2024Day17.RunProgram: instruction codes are limited to 0..127 rather than the full int8_t range.
- Y2024Day17.RunProgram: a shift by 64 or more is taken as the mathematical quotient 0. In the source it is undefined behaviour.
- Y2023Day14.Platform.CalculateLoad: integer overflow of int is not modelled; loads are unbounded integers.
- Y2025Day03.MaxJoltage: overflow of the 64-bit accumulator is not modelled.
- Y2025Day06.Init: overflow of the 64-bit fold is not modelled.
- Y2024Day13.MinPresses: overflow in the determinant products is not modelled. The determinant must be nonzero; the source divides by it.
- Y2023Day15.HashAlgorithm: characters are taken as non-negative code points. The source adds a plain char, which is negative for bytes above 127 where char is signed.
- ShortestPaths.Dijkstra: weights are natural numbers. The use_visited switch and the visit callback are not modelled.
- Bfs.Search: the bool result of the visit callback and the use_seen = false mode are not modelled.
- BoundedHeaps.BoundedHeap.Push: the heap holds int ordered by std::less only. It requires max_size > 0; with max_size 0 the source reads top() of an empty heap.
- Y2024Day02.IsSafeWithDampener: requires at least three levels. With fewer, is_safe on the shortened vector throws from levels.at(1).
- Y2024Day07.IsValid: requires at least one operand, all of them positive. A zero operand makes the source take a remainder by zero. math::next_power_of_10 is not part of this model, so NextPowerOf10 is defined here as the smallest power of ten above its argument.
- Y2024Day14.Robots.Read: requires each robot to start inside the room, since the source takes its grid index. Each velocity component must also be smaller than the room size, because Robot::update wraps only once.
- Y2024Day19.StrToColors: requires every character to be one of the five colour letters. The source asserts on any other character.
- Y2023Day13.Transpose: requires no row to be longer than the first row. A longer row would index past the columns the source allocates from the first row.
- Y2023Day13.CountMismatches: requires the two lines to have equal length. When the second line is a proper prefix of the first, the source's second std::mismatch starts one past the end of the second line (2023/src/day13.hpp:43), which is undefined.
- Y2023Day11.Expand: requires non-negative galaxy positions, because the source uses the positions as indices into its prefix vectors.
- Y2024Day21.RobotController.PressKeyMemo: requires the lower layers to rest on the activate key. This holds at every call in the source, and the cache key leaves those layers out.


## Findings

| source | as written | input that shows it | evidently intended | confidence | as-written member | corrected member |
|---|---|---|---|---|---|---|
| aoc_lib/src/ds/range_lookup.hpp:83-117 | when end <= start and start lies outside every range, add_range still calls create_new_range(start), which inserts [start, start + 1) under its start key only, and expand_range adds no end key; the closing check_invariants then fails assert(table.size() % 2 == 0) | add_range(5, 5) on an empty table: afterwards the table holds the one key 5, so the closing size check fails and the program aborts | an empty or inverted range changes nothing | not executed | RangeLookups.RangeLookup.AddRangeAsWritten, RangeLookups.EmptyRangeAborts | RangeLookups.RangeLookup.AddRange |
| aoc_lib/src/graph_traversal.hpp:179-192 | bfs marks a node seen only when it is expanded, so a node can enter next_queue while it sits in the current level | source 0, edges 0->1, 0->2, 1->2, level {1, 2} iterated with 1 first: 2 is visited at distance 1 and again at distance 2 | with use_seen each node is visited once, at its shortest distance | not executed | Bfs.LevelAsWritten, Bfs.AsWrittenExpandsTwice | Bfs.Search |
| aoc_lib/src/ds/pairing_heap.hpp:249-255 | after melding *it with the next child and erasing that child, the loop advances it by 2 | a root with two children: it passes end(). A root with four children a, b, c, d: ab, c and d reach the second pass, and c and d are never paired | advance by one, so every consecutive pair is melded | not executed | PairingHeaps.FirstPassAsWritten, PairingHeaps.FirstPassRunsPastEnd, PairingHeaps.FirstPassSkipsATree | PairingHeaps.FirstPass |
| aoc_lib/src/ds/pairing_heap.hpp:267-281 | update of a non-root node extracts it together with its children, assigns the new value and melds it back | max-heap 10 -> 5 -> 4, update 5 to 1: the tree becomes 10 -> 1 -> 4, which is not heap-ordered | a node whose value may get worse is removed without its children (its children are re-melded) before it is melded back | not executed | PairingHeaps.UpdateBelowRootAsWritten, PairingHeaps.UpdateAsWrittenBreaksOrder | PairingHeaps.UpdateTree, PairingHeaps.RemoveBelowRoot |
