# Models of the algorithm collection

The repository is a collection of C++ algorithms and small systems. This project models those whose correctness is not
obvious from their text and proves what they are for. Functions and lemmas state the meaning; the loops, arrays, linked
nodes and classes of the program are methods and classes here, proved against these functions.

| module | what it models |
|---|---|
| `MaxTree` | the max tree built out of linked nodes with a monotonic stack |
| `FindDuplicate`, `MissingPositive` | arrays as functional graphs: tortoise and hare, and values swapped into their slots |
| `CanPartition`, `BoundedSubarrays`, `Lis`, `Lcs`, `Windows`, `Majority` | optimality and counting claims about every subset, subarray or subsequence |
| `Lexicographic`, `Subsets`, `Permutations` | exhaustive generators, and the order of what they list |
| `Graphs`, `Reachability`, `SearchOrder`, `Traversal`, `ShortestPath` | searches with a `visited` state, compared with all walks, and the orders in which they list vertices |
| `Sequences`, `Heaps`, `HeapSort`, `QuickSort`, `MinHeap`, `HeapTest` | in-place sorting, and the heap that keeps the N largest |
| `OrderBook` | lists of orders with an id index into them |
| `ObjectPool` | a pool of slots that grows by doubling chunks |
| `DnsName`, `DnsReader`, `DnsRoundTrip` | the domain name encoder, the reader that follows compression pointers, and which names survive both (sections 3.1, 2.3.4 and 4.1.4 of RFC 1035) |
| `Roman` | writing and reading Roman numerals |

Conventions of the models:

- Integers are unbounded; sums, areas and indices are assumed to fit the program's types. The one place where truncation
  matters, the length byte of an encoded label, is modelled modulo 256.
- `std::sort`, `std::upper_bound`, `std::make_heap` and `std::set` appear by their contracts. `operator[]` of a map enters
  a default for a missing key, and so do the methods that model it (`Traversal.Graph.IsVisited`, `AdjacentTo`,
  `OrderBook.SimpleOrderBook.LookUp`).
- What the program prints is a returned sequence. The body of a long loop is a method of its own where it has a contract
  worth stating (`MaxTree.PopLower`, `QuickSort.ScanAndSwap`, `CanPartition.AddNumber`, `Windows.Shrink`).
- Ghost parameters name what the program does not compute: the rounds a loop will take, a set that contains all vertices.

Where the code and its purpose part:

- A repeated value in the max tree makes the leftmost maximum the root. The comment in the source speaks of distinct
  values only; the model covers both.
- `Quick_Sort` can recurse into two ranges that share a position. It is right because it sorts the upper one first.
- The graph class that looks for the shortest and the longest path never clears its answers. `ShortestPath.StaleAnswer`
  and `ShortestPath.StaleLongestAnswer` say exactly when a later query is right all the same, and
  `ShortestPath.StaleShortestFails` and `ShortestPath.StaleLongestFails` name queries for which it is not.
- An insert with a known id leaves the first order in its list and out of the index. `OrderBook.DuplicateInsertBreaks`,
  `OrderBook.InsertTwice` and `OrderBook.SimpleOrderBook.ProcessOrder` say that, of the messages that have a meaning, this
  and only this breaks the book. A cancel that names another symbol or side than the order's own has none.
- The encoder accepts any label, and the reader works by bytes: it takes any byte from 192 on as the start of a pointer,
  even inside a label, and a zero byte as the end. `DnsRoundTrip.EncodingFaithful` and `DnsRoundTrip.WriteAndRead` say
  exactly which names come back, `DnsRoundTrip.EmptyLabelLost` and `DnsRoundTrip.HighByteLost` name some that do not. RFC
  1035 allows 63 bytes in a label; the program reads up to 191.
- The table of `int_to_roman` has an entry of its own for 60, which the reader does not know as such.
  `Roman.WrittenIsNumeral` and `Roman.RoundTrip` show that it is harmless. What is not a numeral is read without complaint;
  `Roman.ProperRead` says exactly of which strings the result is the sum of the letters, and `Roman.ImproperRead` names
  one of which it is not.

`dafny verify dfyconfig.toml` checks the whole project.

## Model

| member | source | states |
|---|---|---|
| `MaxTree.MakeMaxTree` | AlgorithmsTests/main.cpp:1066-1091 | The nodes linked by one pass with a stack spell exactly the recursively defined max tree of the input: the leftmost maximum at the root, what precedes it on the left, what follows it on the right. The nodes, left to right, are the stored ones, which are all different. Over the whole pass there are fewer pops than numbers. |
| `MaxTree.MaxTreeCharacterised` | AlgorithmsTests/main.cpp:1066-1091 | A tree is that max tree if and only if it reads, in order, as the input and each root exceeds its left subtree and is at least its right subtree. |
| `MaxTree.MaxTreeInOrder` | AlgorithmsTests/main.cpp:1066-1091 | Every input range comes back from its max tree by in-order traversal. |
| `MaxTree.MaxTreeIsMaxOrdered` | AlgorithmsTests/main.cpp:1066-1091 | Every max tree has a maximum at each root, strictly above its left part. |
| `MaxTree.OrderedUnique` | AlgorithmsTests/main.cpp:1066-1091 | Max-ordered trees that read the same are the same. |
| `MaxTree.MaxTreeUnique` | AlgorithmsTests/main.cpp:1066-1091 | No other max-ordered tree reads as the same range. |
| `MaxTree.LeftmostMaxProperty` | AlgorithmsTests/main.cpp:1066-1091 | A position is where the maximum first occurs if and only if what precedes it is smaller and what follows it is not larger. |
| `MaxTree.PopLower` | AlgorithmsTests/main.cpp:1074-1079 | Popping keeps the stack the right spine of what is built; the last node popped, the root of all that is lower, becomes the left child; what remains on top is not lower; the pops are counted. |
| `MaxTree.PushNode` | AlgorithmsTests/main.cpp:1081-1086 | Hanging the node to the right of the top and pushing it restores the spine for one number more. |
| `MaxTree.Grow` | AlgorithmsTests/main.cpp:1070-1087 | One round: a new node for the number, after which the stack is again the right spine of what is built. |
| `MaxTree.PoppedBuilt` | AlgorithmsTests/main.cpp:1074-1079 | A popped entry is the root of the max tree of everything from its left part to the end of the input so far. |
| `MaxTree.SpinePush` | AlgorithmsTests/main.cpp:1081-1086 | The spine of the input so far becomes the spine of the input with one number more. |
| `MaxTree.SpineBuilt` | AlgorithmsTests/main.cpp:1066-1091 | When the input ends, every stack entry is the root of the max tree of all that follows its predecessor. |
| `MaxTree.BuiltSpells` | AlgorithmsTests/main.cpp:1045-1063 | Links that describe a max tree by positions make the linked nodes spell it. |
| `MaxTree.Tree.Add` | AlgorithmsTests/main.cpp:1054-1057 | A new unlinked node with the value is stored behind the others. |
| `FindDuplicate.FindByCycle` | Algorithms/Numeric/Numeric.cpp:1760-1778 | For N + 1 numbers in 1..N both loops end, within bounds, and the value returned occurs at two positions. |
| `FindDuplicate.MeetingExists` | Algorithms/Numeric/Numeric.cpp:1764-1768 | At some round hare and tortoise stand on the same value. |
| `FindDuplicate.WalkRepeats` | Algorithms/Numeric/Numeric.cpp:1764-1768 | Following values as positions comes back to a value already seen. |
| `FindDuplicate.Laps` | Algorithms/Numeric/Numeric.cpp:1764-1778 | Once on the cycle, any number of laps leads back to the same value. |
| `FindDuplicate.HopsMerge` | Algorithms/Numeric/Numeric.cpp:1770-1777 | Two different values with one successor make that successor a repeated value. |
| `FindDuplicate.FindByPlacement` | Algorithms/Numeric/Numeric.cpp:1780-1785 | The swap loop ends, rearranges the vector and returns a value that occurs twice in the original. |
| `MissingPositive.SmallestMissing` | Algorithms/Numeric/Numeric.cpp:2223-2236 | Returns the least positive number that does not occur in the original argument, for every argument. |
| `MissingPositive.SendHome` | Algorithms/Numeric/Numeric.cpp:2227-2229 | A swap rearranges the vector, puts one more number into its slot, and unsettles nothing before. |
| `MissingPositive.Settle` | Algorithms/Numeric/Numeric.cpp:2227-2229 | The inner loop ends with position i settled too. |
| `MissingPositive.AllSettled` | Algorithms/Numeric/Numeric.cpp:2231-2235 | In a settled vector the first position without its own number tells the least missing one. |
| `MissingPositive.LeastMissingUnique` | Algorithms/Numeric/Numeric.cpp:2223-2236 | There is only one least missing positive number. |
| `CanPartition.CanPartition` | AlgorithmsTests/main.cpp:1119-1150 | For non-negative numbers the answer is yes if and only if some set of positions and its complement have the same sum. |
| `CanPartition.AddNumber` | AlgorithmsTests/main.cpp:1139-1146 | Running down the table in place turns "reachable from the numbers before" into "reachable with this one too", using no position twice. |
| `CanPartition.ReachableMore` | AlgorithmsTests/main.cpp:1139-1146 | A sum is reachable with one more number if and only if it, or it less that number, was reachable before. |
| `CanPartition.SplitsExist` | AlgorithmsTests/main.cpp:1121-1149 | Equal parts exist if and only if the total is even and half of it is reachable. |
| `CanPartition.SumOverRest` | AlgorithmsTests/main.cpp:1128-1149 | The chosen positions and the others share out the total. |
| `BoundedSubarrays.BoundedSubArrays` | AlgorithmsTests/main.cpp:198-223 | The count is the number of contiguous subarrays with minimum exactly min and maximum exactly max, for all numbers and bounds. |
| `BoundedSubarrays.BoundedByStarts` | AlgorithmsTests/main.cpp:201-218 | A subarray that ends here counts if and only if it starts after the last blocker and not after the last minimum or the last maximum. |
| `BoundedSubarrays.OneMore` | AlgorithmsTests/main.cpp:216-220 | The number of such subarrays grows by the positive part of the difference. |
| `BoundedSubarrays.NoneMore` | AlgorithmsTests/main.cpp:203-207 | A value out of range ends no such subarray. |
| `Lis.LengthByVector` | Algorithms/Numeric/Numeric.cpp:1525-1543 | The length returned is that of a longest strictly increasing subsequence. |
| `Lis.LengthBySet` | Algorithms/Numeric/Numeric.cpp:1497-1510 | The version with an ordered set returns the same length. |
| `Lis.PathHoldsLeastTails` | Algorithms/Numeric/Numeric.cpp:1525-1543 | After any number of values, path[j] is the least value in which an increasing subsequence of j + 1 elements can end, and none is longer than the path. |
| `Lis.PlaceKeepsLeastTails` | Algorithms/Numeric/Numeric.cpp:1528-1541 | Appending or overwriting keeps that. |
| `Lis.PathIsLongest` | Algorithms/Numeric/Numeric.cpp:1525-1543 | The path is as long as a longest increasing subsequence. |
| `Lis.PlaceMembers` | Algorithms/Numeric/Numeric.cpp:1502-1508 | Inserting a new value and erasing the next greater one leaves the set that holds the values of the path; a known value changes nothing. |
| `Lis.InsertAndDropNext` | Algorithms/Numeric/Numeric.cpp:1502-1508 | The body of the set version computes just that set. |
| `Lis.FirstNotBelow` | Algorithms/Numeric/Numeric.cpp:1535-1537 | The search with "not above" for "less" finds the first element that is not below the value. |
| `Lis.PlaceInPath` | Algorithms/Numeric/Numeric.cpp:1528-1541 | Appends above the last value, overwrites the first one not below otherwise. |
| `Lis.MembersSize` | Algorithms/Numeric/Numeric.cpp:1509 | The set has as many elements as the path is long. |
| `Subsets.AllSubsets` | Algorithms/Numeric/Numeric.cpp:3849-3855 | Sorts the argument in place and lists every sub-multiset of it exactly once, and nothing else, repeated numbers included, in lexicographic order. |
| `Subsets.Backtrack` | Algorithms/Numeric/Numeric.cpp:3833-3847 | Appends to the result, keeping what is there, the given prefix followed by each selection of the numbers from start on, each once, in lexicographic order, and nothing else. |
| `Subsets.AfterFirst` | Algorithms/Numeric/Numeric.cpp:3841-3844 | A selection that starts with the first occurrence of x goes on with any selection of what follows, so that further occurrences may be skipped. |
| `Subsets.BranchJoins` | Algorithms/Numeric/Numeric.cpp:3840-3846 | What a branch lists is new and completes the selections that start so far. |
| `Subsets.AllOnce` | Algorithms/Numeric/Numeric.cpp:3849-3855 | Sorted selections, listed in ascending order, are sub-multisets each once. |
| `Subsets.SortedUnique` | Algorithms/Numeric/Numeric.cpp:3849-3855 | A multiset has only one sorted sequence. |
| `Permutations.PermuteUnique` | Algorithms/Numeric/Numeric.cpp:3878-3905 | Returns the distinct permutations of the argument, each once, in ascending order, and leaves the argument as it was. |
| `Permutations.OneMoreEnd` | Algorithms/Numeric/Numeric.cpp:3894-3899 | The permutations of the rest, each with the removed value behind it, are the permutations that end in that value. |
| `Permutations.SkipIsHarmless` | Algorithms/Numeric/Numeric.cpp:3889-3893 | Skipping a rest seen before loses nothing. |
| `Permutations.SameRestSameValue` | Algorithms/Numeric/Numeric.cpp:3889-3893 | Two removals that leave the same vector removed the same value. |
| `Permutations.EndsIn` | Algorithms/Numeric/Numeric.cpp:3894-3899 | A sequence with s[i] behind it is a permutation of s if and only if it is one of what exchanging and popping leave. |
| `Permutations.InOrder` | Algorithms/Numeric/Numeric.cpp:3903 | The set gives its elements in lexicographic order, none missing. |
| `Lexicographic.LexMeans` | Algorithms/Numeric/Numeric.cpp:3903 | One vector comes before another if and only if at some place, after the same beginning, it has ended or is lower. |
| `Permutations.TakeOut` | Algorithms/Numeric/Numeric.cpp:3886-3888 | Exchanging with the last element and popping removes the element at i. |
| `Permutations.PutBack` | Algorithms/Numeric/Numeric.cpp:3900-3901 | Pushing it back and exchanging again restores the vector. |
| `HeapSort.Sort` | Algorithms/Sorting/Sorting.cpp:45-57 | Leaves any array sorted, a permutation of what it was. |
| `HeapSort.HeapifyMax` | Algorithms/Sorting/Sorting.cpp:27-43 | A subtree broken at most at its root becomes a heap; only the positions from there to the heap's end are rearranged. |
| `HeapSort.BuildHeap` | Algorithms/Sorting/Sorting.cpp:47-48 | The first loop makes a max heap of any array. |
| `HeapSort.MoveRoot` | Algorithms/Sorting/Sorting.cpp:51-56 | Moving the root behind the shrinking heap extends the sorted part, which nothing in the heap exceeds. |
| `Heaps.RootIsExtreme` | Algorithms/Sorting/Sorting.cpp:51-56 | Nothing in a heap beats its root. |
| `Heaps.SiftStep` | Algorithms/Sorting/Sorting.cpp:29-42 | Exchanging a position with the child that wins moves the only broken place down to that child. |
| `Heaps.SiftDone` | Algorithms/Sorting/Sorting.cpp:38-39 | A position that wins over its children leaves no broken place. |
| `QuickSort.QSort` | Algorithms/Sorting/Sorting.cpp:324-355 | Sorts the range, a permutation of what it held, and changes nothing outside. |
| `QuickSort.Quick_Sort` | Algorithms/Sorting/Sorting.cpp:444-466 | The same, although its recursive ranges may overlap in one position. |
| `QuickSort.Quick_Sort_2` | Algorithms/Sorting/Sorting.cpp:485-491 | The same, for every range, empty ones included. |
| `QuickSort.ScanAndSwap` | Algorithms/Sorting/Sorting.cpp:335-349 | Both scans, which check no bounds, stay inside the range; what they pass is on the right side of the pivot value; the gap shrinks. |
| `QuickSort.CrossingPartition` | Algorithms/Sorting/Sorting.cpp:327-350 | Rounds until the scans cross: nothing left of the crossing exceeds the pivot value, nothing right of it is below, and both parts are shorter than the range. |
| `QuickSort.MeetingPartition` | Algorithms/Sorting/Sorting.cpp:445-461 | Rounds until the scans meet or cross, with the element they meet at not compared. |
| `QuickSort.CrossedSorts` | Algorithms/Sorting/Sorting.cpp:351-354 | After crossing, the two recursive calls, each made only for two positions or more, sort the whole range. |
| `QuickSort.MetSortUpper` | Algorithms/Sorting/Sorting.cpp:462-463 | After the scans met, sorting the upper range first leaves at its lowest place the only value that may be too small there. |
| `QuickSort.MetSorts` | Algorithms/Sorting/Sorting.cpp:462-465 | So sorting the lower range, which overlaps it there, sorts the whole range. |
| `QuickSort.Partition2` | Algorithms/Sorting/Sorting.cpp:468-483 | Rearranges the range and puts one element where nothing before exceeds it and nothing after is below it. |
| `QuickSort.PlacedSorts` | Algorithms/Sorting/Sorting.cpp:485-491 | Sorting both sides of such an element sorts the range. |
| `QuickSort.SortsWhole` | Algorithms/Sorting/Sorting.cpp:324-355 | Sorting the whole range is sorting the array. |
| `MinHeap.MinBinaryHeap.constructor` | Algorithms/Heap/Heap.cpp:181-185 | The vector becomes a min heap of the given data. |
| `MinHeap.MinBinaryHeap.Heapify` | Algorithms/Heap/Heap.cpp:204-220 | A subtree broken at most at its root becomes a min heap again, by rearrangement. |
| `MinHeap.MinBinaryHeap.MakeHeap` | Algorithms/Heap/Heap.cpp:234-237 | Makes a min heap of any vector. |
| `MinHeap.MinBinaryHeap.UpdateHead` | Algorithms/Heap/Heap.cpp:229-232 | Replaces one copy of the head by the new value and keeps the heap property. |
| `MinHeap.FindNMaxElements` | Algorithms/Heap/Heap.cpp:445-456 | For 1 <= N <= size the heap ends holding exactly the N largest elements, as a multiset, and is still a heap. |
| `MinHeap.KeepIfLarger` | Algorithms/Heap/Heap.cpp:451-453 | One step keeps the N largest of what was seen. |
| `MinHeap.OneMoreElement` | Algorithms/Heap/Heap.cpp:451-453 | A larger element takes the place of the least kept one, any other is left out. |
| `MinHeap.LargestUnique` | Algorithms/Heap/Heap.cpp:445-456 | There is only one multiset of the N largest. |
| `HeapTest.CheckHeap` | Algorithms/Heap/Heap.cpp:616-625 | The test says yes if and only if the vector is a heap of the kind asked for. |
| `HeapTest.MakeMaxHeap` | Algorithms/Heap/Heap.cpp:657-660 | Makes a max heap of any vector, by rearrangement. |
| `Traversal.Graph.Bfs` | Algorithms/Graphs/Graphs.cpp:241-258 | Prints exactly the vertices reachable from the start around those visited before, each once and in non-decreasing distance, and marks them. The start is first, and every further vertex is the next unlisted neighbour, in the order of its list, of the earliest vertex that still has one, which leaves one order only. |
| `Traversal.Graph.Dfs1` | Algorithms/Graphs/Graphs.cpp:221-239 | Prints exactly the same vertices, each once, and marks them. The start is first, and every further vertex is the one found last of those not printed, where a vertex is found by its first printed neighbour: the order of the stack, which is only one. |
| `Traversal.Graph.Dfs` | Algorithms/Graphs/Graphs.cpp:211-219 | The recursive form prints and marks the same vertices, each once, its start first. From every position on, what is reachable from the vertex there around all that comes before is the block that begins there. Every further vertex is the next unlisted neighbour of the latest vertex that still has one, which leaves one order only. |
| `Traversal.Graph.Visit` | Algorithms/Graphs/Graphs.cpp:251-256 | The inner loop appends exactly the neighbours of the vertex at hand that are not yet visited, each once, in the order in which they first occur, and marks them; levels keep rising. |
| `Traversal.Graph.Add` | Algorithms/Graphs/Graphs.cpp:205-209 | There is one edge more between the two ends, in both directions, behind what was there, and none less; an undirected graph stays undirected, that is, every vertex is among the neighbours of another as often as the other is among its own. |
| `Reachability.ReachesBack` | Algorithms/Graphs/Graphs.cpp:205-258 | In an undirected graph every walk can be gone back around the same visited vertices. |
| `Reachability.SearchesMeet` | Algorithms/Graphs/Graphs.cpp:205-258 | So a search from one vertex lists another exactly if a search from the other lists the one. |
| `Reachability.ExploredIsComplete` | Algorithms/Graphs/Graphs.cpp:221-258 | What contains the start and all unvisited neighbours of its members contains every vertex a walk leads to. |
| `Traversal.LevelIsShortest` | Algorithms/Graphs/Graphs.cpp:241-258 | No walk is shorter than the level of the vertex it leads to. |
| `Traversal.LevelsAreDistances` | Algorithms/Graphs/Graphs.cpp:241-258 | A list along which levels rise by at most one step lists what is reachable by distance. |
| `Traversal.BfsVisited` | Algorithms/Graphs/Graphs.cpp:246-257 | Handling one vertex of the queue keeps the levels rising along printed and queued vertices. |
| `Traversal.DfsJoin` | Algorithms/Graphs/Graphs.cpp:216-218 | What a recursive call prints is new, reachable from its caller, and explored. |
| `Traversal.DfsNext` | Algorithms/Graphs/Graphs.cpp:215-218 | A recursive call at the next unvisited neighbour keeps what is printed in order and in nested blocks, with one neighbour more done. |
| `Traversal.BfsRound` | Algorithms/Graphs/Graphs.cpp:246-257 | One round of the queue keeps levels and order, and the vertices not done become fewer. |
| `Traversal.Dfs1Round` | Algorithms/Graphs/Graphs.cpp:227-238 | One round of the stack keeps the order, and the vertices not done become fewer. |
| `SearchOrder.OrderUnique` | Algorithms/Graphs/Graphs.cpp:211-258 | For each of the three searches, two lists of what is reachable that begin with the start and follow its order are the same. |
| `SearchOrder.StepUnique` | Algorithms/Graphs/Graphs.cpp:211-258 | In each of the three orders there is only one vertex with which a list can go on. |
| `SearchOrder.BreadthAppends` | Algorithms/Graphs/Graphs.cpp:251-256 | Appending what the front of the queue finds keeps the breadth-first order, when all before it have nothing left. |
| `SearchOrder.DepthJoins` | Algorithms/Graphs/Graphs.cpp:216-218 | What a recursive call prints behind the rest keeps the depth-first order, when only the caller has anything left. |
| `SearchOrder.NestedGrows` | Algorithms/Graphs/Graphs.cpp:216-218 | It also keeps all blocks: those before end where they ended, those of the call are whole. |
| `SearchOrder.TopFoundLast` | Algorithms/Graphs/Graphs.cpp:228-230 | The top of the stack is, of all that was found and is not printed, what was found last. |
| `SearchOrder.StackGrows` | Algorithms/Graphs/Graphs.cpp:228-238 | Taking the top and pushing what it finds keeps the stack in the order of finding. |
| `SearchOrder.UnseenMembers` | Algorithms/Graphs/Graphs.cpp:251-256 | A vertex is among the appended ones if and only if it is a neighbour that was not seen. |
| `SearchOrder.UnseenAscends` | Algorithms/Graphs/Graphs.cpp:251-256 | They come in the order of their first places in the list of neighbours. |
| `ShortestPath.Graph.FindPaths` | Algorithms/Graphs/Graphs.cpp:619-626 | Afterwards shortest is empty if and only if no walk leads to the target, otherwise a walk there, and no walk is shorter. Among the shortest ones it is the first, in the order of the lists of neighbours. The working path is empty. |
| `ShortestPath.Graph.FindPath` | Algorithms/Graphs/Graphs.cpp:628-644 | Restores path and every flag; beats all paths made of the prefix and a simple path to the target, and takes over only one such that all paths before it, in the order of the lists of neighbours, are longer. |
| `ShortestPath.Graph.AddEdge` | Algorithms/Graphs/Graphs.cpp:614-617 | Appends the edge and keeps room for a flag for every vertex. |
| `ShortestPath.CutLoops` | Algorithms/Graphs/Graphs.cpp:619-644 | Every walk can be cut down to a simple path that is no longer. |
| `ShortestPath.SplitPath` | Algorithms/Graphs/Graphs.cpp:628-644 | A simple path to elsewhere is a vertex followed by a simple path from a neighbour around it, and the other way round. |
| `ShortestPath.OneMoreChild` | Algorithms/Graphs/Graphs.cpp:637-639 | The search below one more neighbour covers the paths through it, and what it takes over is better than all through earlier neighbours. |
| `ShortestPath.EarlierIsWorse` | Algorithms/Graphs/Graphs.cpp:637-639 | A path found below a later neighbour is taken over only if all paths before it, through whatever neighbour, are worse. |
| `ShortestPath.SearchFindsShortest` | Algorithms/Graphs/Graphs.cpp:619-626 | A search that beats every simple path from an empty start has found a shortest walk, and the first of them. |
| `ShortestPath.SearchFindsLongest` | Algorithms/Graphs/Graphs.cpp:685-709 | And the longest simple path, in the form that looks for both, again the first of them. |
| `ShortestPath.PathFinder.FindPaths` | Algorithms/Graphs/Graphs.cpp:685-709 | Improves the shortest and the longest answer by all simple paths at once, taking over a path only if all before it are worse; path and flags are restored. |
| `ShortestPath.PathFinder.FindBelow` | Algorithms/Graphs/Graphs.cpp:699-701 | The loop over the neighbours does that for all paths that go on from a vertex other than the target. |
| `ShortestPath.PathFinder.Try` | Algorithms/Graphs/Graphs.cpp:700-701 | One neighbour: if it is visited nothing happens, otherwise all paths from it are tried; path and flags are as before. |
| `ShortestPath.PathFinder.FirstQuery` | Algorithms/Graphs/Graphs.cpp:685-709 | A query on an object that holds no answers finds both rightly, each the first of its length, and restores path and flags. |
| `ShortestPath.StaleAnswer` | Algorithms/Graphs/Graphs.cpp:678-697 | With the shortest answer of one query kept, it is right after another one if and only if that is the same query or has a walk strictly shorter than the kept answer. |
| `ShortestPath.StaleLongestAnswer` | Algorithms/Graphs/Graphs.cpp:678-697 | With the longest answer kept, it is right if and only if the query is the same or has a strictly longer simple path. |
| `ShortestPath.StaleShortest` | Algorithms/Graphs/Graphs.cpp:690-693 | Whatever shortest path was held before: afterwards it is right if and only if it was right for this query already or gave way to a strictly shorter one. |
| `ShortestPath.StaleLongest` | Algorithms/Graphs/Graphs.cpp:695-696 | The same for the longest path. |
| `ShortestPath.StaleShortestFails` | Algorithms/Graphs/Graphs.cpp:685-709 | On 1 -> 2 -> 3 the query for 3, after that for 2, ends with a wrong shortest path. |
| `ShortestPath.StaleLongestFails` | Algorithms/Graphs/Graphs.cpp:685-709 | There the query for 2, after that for 3, ends with a wrong longest path. |
| `ShortestPath.PathFinder.LaterQuery` | Algorithms/Graphs/Graphs.cpp:685-709 | A query on an object that holds the answers of another leaves each of them right exactly under these conditions. |
| `DnsName.ChangeToDnsNameFormat` | DnsHEXConverter/dns_parser.cpp:400-418 | Appends the byte 46, a dot, to the host and writes, at the given place and nowhere else, the length-prefixed fields between the dots and a zero byte. |
| `DnsName.WriteLabel` | DnsHEXConverter/dns_parser.cpp:409-414 | One field is written behind its length. |
| `DnsName.FieldsSpell` | DnsHEXConverter/dns_parser.cpp:405-416 | The fields and what follows the last dot make up the text again, and no field holds a dot. |
| `DnsName.FieldsInverse` | DnsHEXConverter/dns_parser.cpp:405-416 | Labels without dots come back from their dotted text. |
| `DnsName.HostSpelled` | DnsHEXConverter/dns_parser.cpp:400-418 | The fields of a host are a name whose dotted text is the host, one byte longer when length-prefixed. |
| `DnsName.SplitAtDots` | DnsHEXConverter/dns_parser.cpp:403-407 | No label of a host holds the byte 46, and a host without it is a single label. |
| `DnsName.SplitBetween` | DnsHEXConverter/dns_parser.cpp:403-407 | Two hosts with the byte 46 between them have the labels of the one and then those of the other. |
| `DnsName.RawPlaces` | DnsHEXConverter/dns_parser.cpp:409-414 | What is written for a label begins directly behind that for the one before it, with the length modulo 256, and goes on with its bytes. |
| `DnsName.DottedJoin` | DnsHEXConverter/dns_parser.cpp:349-360 | The texts of two names joined by the byte 46 are the text of the joined names. |
| `DnsReader.ReadName` | DnsHEXConverter/dns_parser.cpp:310-362 | Whenever the reader stays within its memory, it returns the text its copied bytes become. If the message spells labels at that place, through any number of pointers in either direction, this is their dotted text, and the count is the extent of the name in place. |
| `DnsReader.ReadRaw` | DnsHEXConverter/dns_parser.cpp:322-347 | The first loop ends after the given rounds and copies and counts what these rounds copy and count. |
| `DnsReader.PointerLeads` | DnsHEXConverter/dns_parser.cpp:324-328 | For every offset below 16384 the two bytes 192 + o / 256 and o % 256 start a pointer that leads to o. |
| `DnsReader.PointerIs` | DnsHEXConverter/dns_parser.cpp:324-328 | Every byte from 192 on and the byte behind it are the two bytes of one such offset. |
| `DnsReader.StopsOnce` | DnsHEXConverter/dns_parser.cpp:322-341 | There is only one number of rounds after which it can end. |
| `DnsReader.Copies` | DnsHEXConverter/dns_parser.cpp:322-341 | What it has copied stays, and holds only bytes from 1 to 191. |
| `DnsReader.Arrives` | DnsHEXConverter/dns_parser.cpp:322-347 | From every state on the way through spelled labels the loop reaches the terminator, with everything copied and counted. |
| `DnsReader.SpelledText` | DnsHEXConverter/dns_parser.cpp:310-362 | Of spelled labels the raw labels are copied, and their dotted text is the result. |
| `DnsReader.SpelledIsReadable` | DnsHEXConverter/dns_parser.cpp:310-362 | Spelled labels that fit the buffer keep the reader within its memory. |
| `DnsReader.LabelsToText` | DnsHEXConverter/dns_parser.cpp:349-360 | The second loop turns copied bytes in place into text, each length byte making way for a dot behind its label, also when the last one leads beyond the terminator. |
| `DnsReader.ShiftLabel` | DnsHEXConverter/dns_parser.cpp:352-358 | One label moves over its length byte, with a dot behind it. |
| `DnsReader.ConvertStep` | DnsHEXConverter/dns_parser.cpp:350-359 | Such a round inside the string keeps what is done and what is still raw. |
| `DnsReader.ConvertOvershot` | DnsHEXConverter/dns_parser.cpp:350-359 | A round that leads beyond the string moves its terminator and completes the text. |
| `DnsReader.RawText` | DnsHEXConverter/dns_parser.cpp:349-360 | Raw labels become their dotted text. |
| `DnsRoundTrip.WriteAndRead` | DnsHEXConverter/dns_parser.cpp:310-418 | Writing a host and reading it back, within the memory of the reader: the host comes back if and only if each of its labels has 1 to 191 bytes, all below 192, and then the bytes written are counted. |
| `DnsRoundTrip.EncodingFaithful` | DnsHEXConverter/dns_parser.cpp:310-418 | The same for the labels of any text, wherever in a message they were written: the reader returns their dotted text if and only if each has 1 to 191 bytes, all below 192. |
| `DnsRoundTrip.HostReadable` | DnsHEXConverter/dns_parser.cpp:310-418 | A host of such labels, of at most 254 bytes, keeps the reader within its memory. |
| `DnsRoundTrip.ReadLabel` | DnsHEXConverter/dns_parser.cpp:349-360 | Text that was read has no label of 192 bytes and no byte of 192 or more. |
| `DnsRoundTrip.DotWithin` | DnsHEXConverter/dns_parser.cpp:349-360 | No 192 bytes of such text are without a dot. |
| `DnsRoundTrip.EmptyEnds` | DnsHEXConverter/dns_parser.cpp:322-341 | Of a name with an empty label only what precedes it is read. |
| `DnsRoundTrip.EmptyLabelLost` | DnsHEXConverter/dns_parser.cpp:310-418 | The host a..b is written as 1 a 0 1 b 0 and read as a. |
| `DnsRoundTrip.HighByteLost` | DnsHEXConverter/dns_parser.cpp:310-418 | A host of the bytes 192 and 3 is written as such and read as a pointer, to no text. |
| `DnsRoundTrip.WireSpells` | DnsHEXConverter/dns_parser.cpp:322-347 | Labels in wire format spell themselves, with their encoded length as extent. |
| `DnsRoundTrip.PrefixSpells` | DnsHEXConverter/dns_parser.cpp:322-341 | Labels followed by anything that spells the rest spell the whole. |
| `DnsRoundTrip.CompressedSpells` | DnsHEXConverter/dns_parser.cpp:324-347 | Labels that end in a pointer to a name spell the concatenation, and take two bytes more than the labels alone (section 4.1.4 of RFC 1035). |
| `DnsRoundTrip.PointedSpells` | DnsHEXConverter/dns_parser.cpp:324-347 | The same told by the offset: the two bytes 192 + o / 256 and o % 256 go on with the name at o. |
| `DnsRoundTrip.ReadCompressed` | DnsHEXConverter/dns_parser.cpp:310-362 | Reading labels that end in the two bytes for an offset returns the dotted text of these labels and those at the offset, and counts the labels in place and two bytes. |
| `DnsRoundTrip.GrammarFaithful` | DnsHEXConverter/dns_parser.cpp:400-418 | By the message format alone, whatever bytes a label holds, what the encoder writes spells the labels if and only if each has 1 to 191 bytes. |
| `OrderBook.SimpleOrderBook.ProcessOrder` | FinTechMarketProjects/main.cpp:142-168 | One message does to the ordered list of live orders what it should, and index and lists stay in agreement, if and only if it is not an insert with a known id. An insert in either case appends to one list and leads the index to the new node. |
| `OrderBook.SimpleOrderBook.ProcessAll` | FinTechMarketProjects/main.cpp:170-178 | After a stream of admissible messages every list of a symbol and side holds its live orders in insertion order, and the index reads as what the stream makes of a plain map from id to order. |
| `OrderBook.SimpleOrderBook.constructor` | FinTechMarketProjects/main.cpp:137-140 | An empty book without orders. |
| `OrderBook.SimpleOrderBook.InsertOrder` | FinTechMarketProjects/main.cpp:148-152 | A new node with the order goes behind the others of its symbol and side, no other list changes, and the index leads from the id to it, whatever it led to before. A fresh id adds the order behind the live ones; a known id leaves an index that agrees with no list of orders. |
| `OrderBook.SimpleOrderBook.CancelOrder` | FinTechMarketProjects/main.cpp:156-158 | Removes just the order with that id from its list and from the index. |
| `OrderBook.SimpleOrderBook.AmendOrder` | FinTechMarketProjects/main.cpp:159-162 | Changes volume and price of just that order, in place. |
| `OrderBook.RunRefinesMap` | FinTechMarketProjects/main.cpp:137-178 | Whole admissible streams act on the ordered list as on a plain map from id to order. |
| `OrderBook.ApplyRefinesMap` | FinTechMarketProjects/main.cpp:142-168 | Each admissible message does, and keeps ids apart. |
| `OrderBook.CancelIsRemoval` | FinTechMarketProjects/main.cpp:156-158 | Cancelling is removal from the map. |
| `OrderBook.AmendIsUpdate` | FinTechMarketProjects/main.cpp:159-162 | Amending is an update of the map. |
| `OrderBook.OthersStay` | FinTechMarketProjects/main.cpp:156-162 | In the ordered list a cancelled order leaves the others in their order, and an amended one keeps its place, with the new volume and price. |
| `OrderBook.IndexReadsAs` | FinTechMarketProjects/main.cpp:137-140 | An index that agrees with the live orders has their ids as keys and leads from each to its order. |
| `OrderBook.PickErase` | FinTechMarketProjects/main.cpp:156-158 | Erasing an order from its own list erases it from the picture every other list gives, which is unchanged. |
| `OrderBook.AgreeInsert` | FinTechMarketProjects/main.cpp:148-152 | Adding a node with a fresh id to list and index keeps both in agreement. |
| `OrderBook.AgreeCancel` | FinTechMarketProjects/main.cpp:156-158 | So does erasing one from both. |
| `OrderBook.DuplicateInsertBreaks` | FinTechMarketProjects/main.cpp:148-152 | After an insert with a known id no list of live orders agrees with both any more. |
| `OrderBook.InsertTwice` | FinTechMarketProjects/main.cpp:148-152 | One order inserted twice into a new book is such a case. |
| `OrderBook.UnknownId` | FinTechMarketProjects/main.cpp:163-166 | A cancel or an amendment of an unknown id changes nothing. |
| `OrderBook.ValuesPick` | FinTechMarketProjects/main.cpp:105-122 | The list of a symbol and side holds the live orders of that symbol and side. |
| `OrderBook.SimpleOrderBook.BiggestBuyOrders` | FinTechMarketProjects/main.cpp:186-212 | Gives the three buy orders of a symbol with the largest volumes, or all of fewer. |
| `OrderBook.TopThree` | FinTechMarketProjects/main.cpp:192-206 | Heaping three orders again before each further one keeps the three largest. |
| `OrderBook.KeepOrReplace` | FinTechMarketProjects/main.cpp:202-206 | A larger order takes the place of the least of them, any other is left out. |
| `ObjectPool.Pool.AcquireObject` | Memory/main.cpp:193-212 | Hands out a slot nobody has, the last of the free ones; every slot stays accounted for. If one was free the allocator is left alone; if none was, exactly one block is allocated. There are just as many chunks as the peak needed. |
| `ObjectPool.Pool.AddChunk` | Memory/main.cpp:134-145 | Allocates one block, twice as large as the last one, and nothing else; all its slots, in their order, are what is free; no slot is lost. |
| `ObjectPool.Pool.Release` | Memory/main.cpp:152-161 | The slot becomes free again, and nothing else changes. |
| `ObjectPool.Pool.Destroy` | Memory/main.cpp:173-180 | Gives every chunk back with the size it was allocated with, and nothing else, which leaves the allocator with the blocks it had when the pool was made. |
| `ObjectPool.FreeChunks` | Memory/main.cpp:173-180 | The loop of the destructor, which computes the sizes anew, deallocates every chunk with its own size. |
| `ObjectPool.Lifetime` | Memory/main.cpp:167-212 | From construction through any number of acquisitions to destruction the allocator ends with the blocks it began with. |
| `ObjectPool.ChunkAdded` | Memory/main.cpp:134-145 | With one block more everything that ties the fields of the pool to the allocator still holds. |
| `ObjectPool.Pool.constructor` | Memory/main.cpp:167-171 | An empty pool that accounts for all its slots and remembers, for the proof, the blocks of its allocator. |
| `ObjectPool.Pool.Conservation` | Memory/main.cpp:134-211 | In every state free and handed-out slots number 5 * (2^k - 1) for k chunks. |
| `ObjectPool.AccountedCount` | Memory/main.cpp:134-211 | Free and handed-out slots without repetition that cover k chunks are that many. |
| `ObjectPool.SlotsCount` | Memory/main.cpp:134-145 | k different chunks have that many slots. |
| `ObjectPool.ChunkSizeIsPower` | Memory/main.cpp:129-145 | Chunk k has 5 * 2^k slots. |
| `ObjectPool.PeakAfterTaking` | Memory/main.cpp:193-212 | A chunk is added only when every slot is out, so one chunk less would not have held the peak. |
| `ObjectPool.PeakGrows` | Memory/main.cpp:193-212 | The same as arithmetic on the number of chunks. |
| `Lcs.LcsIsGreatest` | Algorithms/Numeric/Numeric.cpp:257-264 | The recursion gives the greatest length of a common subsequence of two strings. |
| `Lcs.NoneLonger` | Algorithms/Numeric/Numeric.cpp:257-264 | No common subsequence is longer. |
| `Lcs.OneAsLong` | Algorithms/Numeric/Numeric.cpp:257-264 | And one is as long. |
| `Windows.MaxSubarrayLength` | Algorithms/Numeric/Numeric.cpp:1413-1439 | Returns the greatest length of a subarray in which no number occurs more than k times; over the whole scan the left end moves no more often than there are numbers. |
| `Windows.Shrink` | Algorithms/Numeric/Numeric.cpp:1428-1433 | The left end moves to the first start from which the window fits again; the dictionary counts the window. |
| `Windows.LongestGrows` | Algorithms/Numeric/Numeric.cpp:1423-1436 | The window at hand is the best that ends where it ends. |
| `Windows.MaxArea` | Algorithms/Numeric/Numeric.cpp:3543-3556 | Returns the largest area between two positions. |
| `Windows.LowerEndIsDone` | Algorithms/Numeric/Numeric.cpp:3547-3553 | No position inside makes a larger area with the lower end, so it can be passed. |
| `Majority.MajorityElement` | Algorithms/Numeric/Numeric.cpp:3509-3523 | Returns the majority element whenever there is one; the value returned is one only then. |
| `Majority.OneMore` | Algorithms/Numeric/Numeric.cpp:3512-3521 | One step of the counter keeps what is known about every value: how far it can be above or below half. |
| `Roman.RoundTrip` | AlgorithmsTests/main.cpp:737-840 | Reading what was written for a number gives the number, for every natural number. |
| `Roman.IntToRoman` | AlgorithmsTests/main.cpp:737-756 | The loops write, for every natural number, its decimal digits place by place in the letters I, V, X, L, C, D and M, with as many M as there are thousands; the letters sum to the number, each counted negatively before a greater one. |
| `Roman.RomanToInt` | AlgorithmsTests/main.cpp:795-840 | Of any string the loop computes the sum of its letters, I as 1, V as 5, X as 10, L as 50, C as 100, D as 500 and M as 1000, each negative before a greater one, if and only if the string is proper; of the numeral of a number, that number. |
| `Roman.WrittenIsNumeral` | AlgorithmsTests/main.cpp:737-756 | The greedy decomposition by the table, with its entry for 60, writes the decimal digits place by place. |
| `Roman.LettersSum` | AlgorithmsTests/main.cpp:737-756 | The letters of what is written sum to the number. |
| `Roman.NumeralBegins` | AlgorithmsTests/main.cpp:739-754 | A numeral begins with the symbol of the first table entry that fits, followed by the numeral of what is left. |
| `Roman.ProperRead` | AlgorithmsTests/main.cpp:795-840 | The reader never gives less than the sum of the letters, and gives just that if and only if each letter before a greater one makes a subtractive pair with it and no greater letter follows the pair. |
| `Roman.ImproperRead` | AlgorithmsTests/main.cpp:795-840 | IL is read as 51, although its letters sum to 49. |
| `Roman.NumeralsRead` | AlgorithmsTests/main.cpp:795-840 | Every numeral is read as its number, the sum of its letters. |
| `Roman.SymbolRead` | AlgorithmsTests/main.cpp:739-754 | A symbol followed by the rest of a number is read as that symbol, the entry for 60 included. |
| `Roman.FirstCharacter` | AlgorithmsTests/main.cpp:739-754 | The first character of a written number tells its order of magnitude, so that look-ahead never joins two symbols. |

## Left out

- DnsReader.ReadName: does not cover messages with which the program leaves its memory: no terminator within the message,
  more bytes than its buffer holds, a length byte that leads beyond the buffer, or the root name, for which it writes
  before the buffer. The source has no error path for them.
- DnsRoundTrip.WriteAndRead: for the same reason says nothing of hosts with which the reader leaves its memory.
- OrderBook.SimpleOrderBook.ProcessOrder: does not model a cancel whose symbol or side differs from the order's own,
  because erasing an iterator from another list has no meaning in the source.
- OrderBook.SimpleOrderBook.BiggestBuyOrders: does not fix the order of the three or the choice among equal volumes,
  because these depend on the heap the library builds.
- OrderBook.TopThree: works on the values of the orders; prices are real numbers, not floats.
- MaxTree.MakeMaxTree: does not cover the empty vector, for which the source reads the front of an empty stack.
- QuickSort.QSort: needs a range of at least one position, because its scans read before they compare; so does Quick_Sort.
- Windows.MaxArea: needs at least one height and no negative one; the source mixes signed heights with unsigned areas.
- CanPartition.CanPartition: needs non-negative numbers, because a negative one indexes outside the table.
- Roman.IntToRoman: takes natural numbers, because the source does not end on negative ones.
- ShortestPath.Graph.AddEdge: vertices are not negative, because flags are kept in an array indexed by vertex.
- ObjectPool.Pool.Release: the construction and destruction of the objects in the slots, and the moves of the pool, are
  not modelled; a slot is what is handed out.
- Running times and stack depth: beyond the counts of pops and moves in `MaxTree.MakeMaxTree` and
  `Windows.MaxSubarrayLength`, the bounds in the comments are not stated.
- Parsing of order lines, file reading, `OrderCounts` and `BestSellAtTime`: input, output and a float scan.
- Routines that do not do what they are named for: `MinBinaryHeap::add`, the `pop` of both heaps and `IsHeapValid`,
  `Is_MaxHeap`, `_is_max_heap_good`, `boundedSubArraysEx`, `boundedSubArrays2`, `find_rank`, `canJump`, the second and third
  form of the smallest subarray with a greater sum, `_swap`, `QSortEx`, `findMinimumNumberEdges`,
  `is_interleaving_string`, `extractName`.
- The recursive forms of the max heap sift, `qs`, and the other forms of the duplicate search: the same results again.
- Bubble, selection and insertion sort, minimum and maximum scans, missing numbers by sums, palindromes, integer wrappers
  and the three-thread print-in-order flag: easy members.
- Sockets, timers, randomness, threads, benchmarks, puzzles, library demonstrations, floating point and everything built
  on foreign libraries.
