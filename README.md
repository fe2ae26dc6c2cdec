# fast-skyline in Dafny

This project models the core of *fast-skyline*. Given n items, an additive
"sum" function and a submodular "value" function over item sets, fast-skyline
computes the **skyline of k-subsets**: the subsets that no other k-subset
beats on both objectives. The exact search walks arrays of k positions, which
can repeat an item, so its results are stated over k positions. Depending on the evaluator's `maxSum` flag, the sum
is either minimised or maximised. The value is always maximised.

The model follows the Java classes one file and one module at a time:

- **Combination tree** (`SearchTreeNode`). A node is a position array `pos`
  and a cursor `j`. It has a left child and a right child, and it can be
  shifted from 1-based to 0-based positions.
- **Exact branch-and-bound search** (`ExactSkyline`). Nodes are polled from a
  border ordered by sum. A point is emitted only when its value is strictly
  above the current floor. A child is queued only when the prefix-sum bound
  says it could still win. Termination is proved by a weight on the border.
- **Rank/unrank partitioning and merge** (`ExactSkylineParallel`).
  - Subtree sizes are binomial sums, proved by the hockey-stick identity.
  - The tree has C(n, k) nodes in preorder.
  - `unrank(i)` is the i-th node of that preorder, and the spine's ranks
    strictly increase.
  - `findInterval` covers consecutive ranks.
  - `joinSkylines` keeps the running-maximum records of the sum-sorted union.
- **Floor map** (`MutableDouble` / `SynchronizedMutableDouble`). It is one
  class with a `synchronized` flag:
  - In plain mode it is a single value.
  - In synchronized mode it is a sorted staircase of (sum, value) entries.
    `setValue` lifts the floor to exactly `max(old floor, new value)` at every
    sum from the given one on.
- **Helpers**: the integer `Utils` helpers (ranges, suffix, subset test,
  stable `sortedIdx`, factorial and `nchoosek`, lexicographic comparison,
  `skylineAsArray`), `SkylinePoint`, the array min-heap `Binheap`, and the
  column-major `Matrix`, `DoubleMatrix` and `IntMatrix`.
- **Approximate searches**: the levelwise and fast skyline searches, and the
  lazy greedy maximizer.
- **Integer cover oracles**: set-cover row counting, and the cover-pattern
  histograms of the int and bit subgroup evaluators, proved to agree.
- **Argument parser**: the `-flag value` parser.

Modelling conventions:

- **Numbers.** Java `double` sums and values are modelled as `int`, with the
  ±∞ sentinels as `ExtInt.XInt` (`NegInf | Fin(v) | PosInf`). `BigInteger`
  becomes `nat`.
- **Oracles.** The abstract evaluator oracles (`numItems`, `sumFnc`,
  `submodularFnc`, `origItem`) are the function fields of
  `Evaluator.Oracle`, so every search is proved for all oracles. The concrete
  evaluators are classes whose methods update their call counters.
- **Sorting.** Java's stable sorts (`Collections.sort`,
  `Arrays.sort(Object[])`) are the stable insertion sort `Utils.SortBy`.
  Their output is the unique stable ordering.

## Model

| member | source | states |
|---|---|---|
| Matrix.Matrix.constructor | src/java/Matrix.java:7-12 | a fresh matrix has nrow·ncol cells, all null |
| Matrix.Matrix.Set | src/java/Matrix.java:14-22 | set writes flat cell j·nrow+i only; get at that cell then returns the value and every other cell is unchanged |
| DoubleMatrix.DoubleMatrix.constructor | src/java/DoubleMatrix.java:7-12 | a fresh matrix has nrow·ncol zero cells |
| DoubleMatrix.DoubleMatrix.Set | src/java/DoubleMatrix.java:14-22 | set writes flat cell j·nrow+i only; get returns the value, other cells unchanged |
| IntMatrix.IntMatrix.constructor | src/java/IntMatrix.java:8-13 | a fresh nrow×ncol matrix is all zero |
| IntMatrix.IntMatrix.Wrap | src/java/IntMatrix.java:15-23 | once the size check passes, the matrix aliases the caller's array |
| IntMatrix.IntMatrix.FromData | src/java/IntMatrix.java:15-23 | the data constructor fails (null here) exactly when data.length ≠ nrow·ncol |
| IntMatrix.IntMatrix.Set | src/java/IntMatrix.java:35-43 | get after set returns the value; exactly one cell changes |
| ColumnMajor.IndexInRange | src/java/IntMatrix.java:35-43 | a column-major index j·nrow+i of an in-range cell lies inside the nrow·ncol array |
| ColumnMajor.IndexInjective | src/java/IntMatrix.java:35-43 | distinct cells have distinct column-major indexes |
| Utils.Iota | src/java/Utils.java:34-51 | the sequence s, s+1, …, e-1 |
| Utils.Range | src/java/Utils.java:34-41 | range(k) has length k with x[i] = i |
| Utils.RangeBetween | src/java/Utils.java:43-51 | range(s, e) has length e−s with x[i] = s+i |
| Utils.ArraySuffix | src/java/Utils.java:53-58 | the suffix has length |a|−b and suffix[i] = a[b+i] |
| Utils.ArrayIndexOf | src/java/Utils.java:71-79 | first index holding the value, −1 iff absent |
| Utils.IsSubset | src/java/Utils.java:60-69 | true iff every element of A occurs in B |
| Utils.InsertBy | src/java/Utils.java:98-108 | inserting into a key-sorted sequence keeps it sorted and adds exactly the element |
| Utils.SortBy | src/java/Utils.java:98-108 | the stable sort is key-sorted and a permutation of its input |
| Utils.SortedIdx | src/java/Utils.java:90-114 | a permutation of 0..n−1 ordering the values non-decreasingly, or non-increasingly when decreasing |
| Utils.Permute | src/java/SetCoverEvaluator.java:52-56 | the rearranged values satisfy v[i] = values[origItem[i]] |
| Utils.RearrangeColumns | src/java/Utils.java:116-125 | a fresh matrix of the same shape whose column c is column permutation[c] of the original |
| Utils.Fact | src/java/Utils.java:132-142 | the factorial is at least 1 |
| Utils.JavaFactorial | src/java/Utils.java:132-142 | factorial(n) is n! for n ≥ 0, and n itself for negative n (the loop never runs) |
| Utils.Factorial | src/java/Utils.java:132-142 | the descending product loop computes JavaFactorial |
| Utils.FactSplit | src/java/Utils.java:127-130 | n! = C(n,k)·k!·(n−k)! for k ≤ n |
| Utils.BinomDiagonal | src/java/Utils.java:127-130 | C(n, n) = 1 |
| Utils.BinomAbove | src/java/Utils.java:127-130 | C(n, k) = 0 for k > n |
| Utils.NChooseKIsBinom | src/java/Utils.java:127-142 | nchoosek(n, k) = n!/(k!(n−k)!) is the binomial coefficient for 0 ≤ k ≤ n |
| Utils.NChooseKBelowRange | src/java/Utils.java:127-130 | outside 0 ≤ k ≤ n nchoosek is not a binomial: nchoosek(0, 1) = −1 |
| Utils.LexicographicArrayComparison | src/java/Utils.java:249-260 | −1/0/1 by the first differing index over a's length; 0 iff a is a prefix of b |
| Utils.IntListToArray | src/java/Utils.java:262-269 | the array holds the list's elements in order |
| SearchTreeNode.ShiftLeft | src/java/SearchTreeNode.java:21-28 | every position decreases by 1, the cursor is kept |
| SearchTreeNode.ShiftedSubset | src/java/SearchTreeNode.java:21-28 | shifting maps increasing 1-based positions in [1, n] exactly onto increasing 0-based ones in [0, n) |
| SearchTreeNode.Child | src/java/SearchTreeNode.java:93-98 | child(c) copies pos, adds 1 at slot c only, and moves the cursor to c |
| SearchTreeNode.Left | src/java/SearchTreeNode.java:30-42 | null iff j = 0; otherwise only pos[j−1] grows by 1 and the cursor becomes j−1 |
| SearchTreeNode.Children | src/java/SearchTreeNode.java:49-68 | a left child iff j > 0 and a right child iff pos[j]+1 is below the bound, left first |
| SearchTreeNode.LeftIsFirstChild | src/java/SearchTreeNode.java:30-55 | left() is the first of children() |
| SearchTreeNode.RightChildSubset | src/java/SearchTreeNode.java:57-66 | the right child of an increasing in-range node is increasing and in range |
| SearchTreeNode.LeftChildSubsetIff | src/java/SearchTreeNode.java:53-55 | the left child is increasing iff there was a gap before pos[j] |
| SearchTreeNode.DegenerateLeftChild | src/java/SearchTreeNode.java:53-55 | [0,1] with j=1 over 2 items has the single child [1,1] with j=0, which repeats an item |
| SearchTreeNode.Equals | src/java/SearchTreeNode.java:79-86 | equals holds iff same cursor and element-wise equal positions |
| SearchTreeNode.EqualNodesHashEqually | src/java/SearchTreeNode.java:71-86 | Java's `equals`/`hashCode` contract, which the end-generator hash set relies on: equal nodes have equal 32-bit hash codes |
| SearchTreeNode.PotentialOfChild | src/java/SearchTreeNode.java:93-98 | every child lowers the node's potential by exactly 1 |
| MutableDouble.LastLe | src/java/ExactSkylineParallel.java:126-129 | the floor entry is the last entry whose key is at or before the sum in map order |
| MutableDouble.FloorMonotone | src/java/ExactSkylineParallel.java:126-129 | on a valid staircase, value(s) never decreases along the sum order |
| MutableDouble.FirstGe | src/java/ExactSkylineParallel.java:138-139 | the tail map starts at the first key not before the sum |
| MutableDouble.RunEnd | src/java/ExactSkylineParallel.java:141-149 | removal stops at the first entry with a larger value |
| MutableDouble.SetEntriesValid | src/java/ExactSkylineParallel.java:131-152 | setValue keeps keys strictly ordered and values non-decreasing |
| MutableDouble.SetEntriesFloor | src/java/ExactSkylineParallel.java:131-152 | after setValue(sum, v), value(s) = max(old value(s), v) for s at or after sum, and is unchanged before sum |
| MutableDouble.SetEntriesFloorAll | src/java/ExactSkylineParallel.java:131-152 | the same, for all sums at once |
| MutableDouble.TailStart | src/java/ExactSkylineParallel.java:138-139 | the scan finds the tail map's first entry |
| MutableDouble.RemovalEnd | src/java/ExactSkylineParallel.java:141-149 | the removal loop stops exactly at RunEnd |
| MutableDouble.MutableDouble.constructor | src/java/ExactSkylineParallel.java:99-124 | both variants start with value(s) = −∞ for every sum (the synchronized one through its ±∞ sentinel) |
| MutableDouble.MutableDouble.SetValue | src/java/ExactSkyline.java:211-214 | plain: the value is overwritten, whatever the sum; synchronized: the staircase update whose floor is max(old, v) from sum on |
| ExactSkylineParallel.FindEnd | src/java/ExactSkylineParallel.java:340-354 | end keeps the slots after j, end[j] = pos[j+1]−1 (or n), and end[i] = end[i+1]−1 below j |
| ExactSkylineParallel.HockeyStick | src/java/ExactSkylineParallel.java:379-386 | Σ_{i=r+1}^{m} C(i−1, r) = C(m, r+1) |
| ExactSkylineParallel.SubtreeSize | src/java/ExactSkylineParallel.java:379-386 | the loop computes Σ_{i=pos[j]}^{end[j]} C(i−1, j) |
| ExactSkylineParallel.Pre | src/java/ExactSkylineParallel.java:323-338 | the preorder of a node's subtree starts with the node |
| ExactSkylineParallel.PreLength | src/java/ExactSkylineParallel.java:379-386 | the subtree-size sum is the number of nodes in the subtree |
| ExactSkylineParallel.RootSize | src/java/ExactSkylineParallel.java:311-321 | the root (1..k, k−1) has C(n,k) subtree nodes |
| ExactSkylineParallel.RootEnd | src/java/ExactSkylineParallel.java:290-294 | the root's end array is realEnd = n−k+1 .. n |
| ExactSkylineParallel.Spine | src/java/ExactSkylineParallel.java:388-407 | the spine starts at its root |
| ExactSkylineParallel.MaterializeSpine | src/java/ExactSkylineParallel.java:388-407 | the nested slot loops build exactly the spine |
| ExactSkylineParallel.MaterializeSlots | src/java/ExactSkylineParallel.java:393-405 | the slot loop from j down to 0 builds the root followed by its spine tail; a slot already at its end adds nothing |
| ExactSkylineParallel.FillSlot | src/java/ExactSkylineParallel.java:396-404 | one slot below its end adds its chain and leaves the lower slots as they were |
| ExactSkylineParallel.AppendSlot | src/java/ExactSkylineParallel.java:398-403 | the inner loop appends nodes with slot q at pos[q]+1 .. end[q] and cursor q |
| ExactSkylineParallel.SpineRanks | src/java/ExactSkylineParallel.java:356-377 | each spine node sits at its rank in the preorder; ranks strictly increase from 1 to the subtree size |
| ExactSkylineParallel.SpineRanksIncrease | src/java/ExactSkylineParallel.java:356-377 | ranks along the spine strictly increase |
| ExactSkylineParallel.Rank | src/java/ExactSkylineParallel.java:318-321 | rank = treesize − (nodes from pos[j] to end[j]) + 1 |
| ExactSkylineParallel.FindNprime | src/java/ExactSkylineParallel.java:356-377 | returns the spine node with rank ≤ index < next rank, or the last one |
| ExactSkylineParallel.UnrankStep | src/java/ExactSkylineParallel.java:323-338 | between two spine ranks, the index-th node lies in the located node's left subtree at index − rank |
| ExactSkylineParallel.Unrank | src/java/ExactSkylineParallel.java:323-338 | for 1 ≤ index ≤ subtree size, unrank returns the index-th preorder node of the root's subtree |
| ExactSkylineParallel.PreBlockEnd | src/java/ExactSkylineParallel.java:301-304 | a node's end equals the root's end iff its subtree is the last block of the preorder |
| ExactSkylineParallel.GlobalRank | src/java/ExactSkylineParallel.java:311-316 | rank(node, n) measures against the global end n−k+1 .. n |
| ExactSkylineParallel.RankOnSpine | src/java/ExactSkylineParallel.java:311-321 | on the root's spine the global rank is the preorder position, and the root's rank is 1 |
| ExactSkylineParallel.RankOffSpine | src/java/ExactSkylineParallel.java:311-316 | off the spine it is not: for n=4, k=2 the 3rd node (2,3) with j=0 gets global rank 5 |
| ExactSkylineParallel.NextGenerator | src/java/ExactSkylineParallel.java:297-305 | each new generator is unrank(index + ss); the generators' subtrees stay consecutive preorder blocks from index |
| ExactSkylineParallel.EndAndSize | src/java/ExactSkylineParallel.java:301-305 | findEnd and subtreeSize give the node's end and its subtree's node count |
| ExactSkylineParallel.RootAndEnd | src/java/ExactSkylineParallel.java:290-294 | the root (1..k, k−1) with C(n,k) nodes and its end array |
| ExactSkylineParallel.FindInterval | src/java/ExactSkylineParallel.java:284-308 | generator subtrees cover consecutive ranks from index; the loop stops once ≥ delta are covered or the root's last block is reached |
| ExactSkylineParallel.GrowInterval | src/java/ExactSkylineParallel.java:296-305 | the while loop keeps the generators' subtrees a consecutive stretch from index; on exit the stretch reaches delta or the end of the tree, and was below delta before its last subtree |
| ExactSkylineParallel.CoveringGrows | src/java/ExactSkylineParallel.java:297-305 | the subtree of the node unranked right after the stretch extends the stretch, and its end equals realEnd iff the stretch now reaches the last rank |
| ExactSkylineParallel.Delta | src/java/ExactSkylineParallel.java:252-257 | delta is the floor quotient of C(n,k) by numSegments, because the +1 is discarded |
| ExactSkylineParallel.IntervalRanges | src/java/ExactSkylineParallel.java:258-271 | interval i starts at rank delta·(i−1)+1, and both it and the next interval's start are valid ranks |
| ExactSkylineParallel.ComputeInterval | src/java/ExactSkylineParallel.java:244-280 | the begin generators cover consecutive ranks from delta·(i−1)+1; the interval's points are evaluated at k in-range positions (items may repeat) and recorded in the floor map |
| ExactSkylineParallel.NodeSet | src/java/ExactSkylineParallel.java:267-275 | the end-generator set holds exactly the listed nodes |
| ExactSkylineParallel.FlattenMembers | src/java/ExactSkylineParallel.java:216-221 | a point is in the combined list iff it is in some interval's skyline |
| ExactSkylineParallel.JoinSkylines | src/java/ExactSkylineParallel.java:213-236 | with no points there is no result; otherwise the ≥-records of the sum-sorted union |
| ExactSkylineParallel.Combine | src/java/ExactSkylineParallel.java:216-221 | the interval skylines concatenated in order |
| ExactSkylineParallel.ScanRecords | src/java/ExactSkylineParallel.java:225-234 | the scan keeps the first point and each point at or above the running maximum |
| ExactSkylineParallel.MergeProperties | src/java/ExactSkylineParallel.java:213-236 | the merge is a subsequence of the sorted union, sorted by sum, starts with its first point, and has non-decreasing values (ties kept) |
| ExactSkylineParallel.Seed | src/java/ExactSkylineParallel.java:179-186 | every seeding point is recorded in the synchronized floor map |
| ExactSkylineParallel.RunIntervals | src/java/ExactSkylineParallel.java:188-205 | one skyline per interval, all of points at k in-range positions (items may repeat) |
| ExactSkylineParallel.ComputeSkyline | src/java/ExactSkylineParallel.java:171-211 | the joined result holds points at k in-range positions (items may repeat), sorted by sum with non-decreasing values |
| ExactSkyline.InsertDesc | src/java/ExactSkyline.java:176-181 | one insertion step puts the new value in front when it exceeds the head |
| ExactSkyline.InsertDescMultiset | src/java/ExactSkyline.java:176-181 | an insertion step only permutes the prefix |
| ExactSkyline.InsertDescSorted | src/java/ExactSkyline.java:176-181 | an insertion step keeps the prefix in non-increasing order |
| ExactSkyline.SortDescSorted | src/java/ExactSkyline.java:170-181 | the prefix after step x is non-increasing and a permutation of the first x+1 singleton values |
| ExactSkyline.WrittenIff | src/java/ExactSkyline.java:182-185 | with k ≥ 2, the loops write exactly the cells (x, i) with 1 ≤ x, i < x and i < k−1 |
| ExactSkyline.PrefixBoundWritesOutsideForK1 | src/java/ExactSkyline.java:171-182 | with k = 1 the table has no column, yet cell (1, 0) is written |
| ExactSkyline.PrefixCellFirstIsMax | src/java/ExactSkyline.java:182 | B[x][0] is the largest singleton value among items 0..x |
| ExactSkyline.PrefixBoundGrowsWithRow | src/java/ExactSkyline.java:168-188 | a cell never decreases from one row to the next |
| ExactSkyline.GetSingletonValues | src/java/ExactSkyline.java:160-166 | x[i] is the singleton value of item i |
| ExactSkyline.InsertStep | src/java/ExactSkyline.java:173-181 | the swap loop performs one insertion into the sorted prefix and leaves the rest alone |
| ExactSkyline.WritePrefixRow | src/java/ExactSkyline.java:182-185 | row x gets the prefix sums of the x+1 sorted values; other rows are kept |
| ExactSkyline.SortPrefixStep | src/java/ExactSkyline.java:172-181 | after pass x the first x+1 cells hold the first x+1 singleton values in non-increasing order, and the rest of the array is untouched |
| ExactSkyline.GetPrefixBound | src/java/ExactSkyline.java:168-188 | B[x][i] is the sum of the i+1 largest singleton values among items 0..x in every written cell, and 0 elsewhere |
| ExactSkyline.RootIsSearchNode | src/java/ExactSkyline.java:40 | the root (range(k), k−1) is a valid search node |
| ExactSkyline.ChildrenAreSearchNodes | src/java/SearchTreeNode.java:49-68 | children of a search node are search nodes with potential one lower |
| ExactSkyline.ChildrenWeighLess | src/java/ExactSkyline.java:94-102 | the at most two queued children weigh less than their parent |
| ExactSkyline.Border.constructor | src/java/ExactSkyline.java:217-223 | a fresh border is empty |
| ExactSkyline.Border.Size | src/java/ExactSkyline.java:68 | size is 0 iff the border is empty |
| ExactSkyline.Border.Add | src/java/ExactSkyline.java:110-112 | add enqueues exactly the node |
| ExactSkyline.Border.Poll | src/java/ExactSkyline.java:84 | poll removes and returns one node of minimal key (sum, negated for max-sum) |
| ExactSkyline.InitBorder | src/java/ExactSkyline.java:105-114 | the border holds exactly the begin generators |
| ExactSkyline.TotalBound | src/java/ExactSkyline.java:141-154 | the bound is +∞ iff k − j < 2 |
| ExactSkyline.ProcessChildNode | src/java/ExactSkyline.java:134-158 | the child is added iff totalBound ≥ value(sum(child)); nothing else in the border changes |
| ExactSkyline.MakePoint | src/java/ExactSkyline.java:88 | the emitted point has the actual items, the node's sum and its value |
| ExactSkyline.EmitPlainOrder | src/java/ExactSkyline.java:87-90 | with the plain floor the emitted values strictly increase |
| ExactSkyline.EmitSynchronizedOrder | src/java/ExactSkyline.java:87-90 | with the map floor no emitted point is dominated by a later one |
| ExactSkyline.Emit | src/java/ExactSkyline.java:87-93 | the point is appended and setValue applied; both orderings are kept |
| ExactSkyline.ExpandNode | src/java/ExactSkyline.java:94-102 | the queued children are exactly the node's children outside endGenerators whose total bound reaches the floor at their sum, in children order, appended to the border |
| ExactSkyline.Kept | src/java/ExactSkyline.java:94-102 | at most two nodes, all children of the node and none an end generator |
| ExactSkyline.Admitted | src/java/ExactSkyline.java:94-102 | a sub-list of the offered children, none an end generator |
| ExactSkyline.AdmittedIff | src/java/ExactSkyline.java:134-158 | a child is admitted iff it is offered, is not an end generator, and its total bound reaches the floor at its sum |
| ExactSkyline.OfferChild | src/java/ExactSkyline.java:96-100 | one turn of the children loop: the child is appended to the border iff it is not an end generator and processChildNode admits it |
| ExactSkyline.UpdateBorder | src/java/ExactSkyline.java:76-103 | pops one minimal node; emits it and calls setValue iff its value is strictly above the floor; the new border is the old one without that node plus exactly the children ExpandNode keeps against the floor after emission, none when j = −1; the border's weight drops |
| ExactSkyline.ComputeSkylineInterval | src/java/ExactSkyline.java:52-74 | the loop terminates; every emitted point is evaluated at k in-range positions (items may repeat) and recorded in the floor |
| ExactSkyline.ComputeSkyline | src/java/ExactSkyline.java:36-46 | seeded with the root alone, the result holds points at k in-range positions (items may repeat) with strictly increasing values |
| Evaluator.ActualItems | src/java/Evaluator.java:45-52 | same length, with a[i] = origItem[indexes[i]] |
| Evaluator.Evaluator.constructor | src/java/Evaluator.java:28-33 | maxSum false, no origItem, both counters 0 |
| Evaluator.Evaluator.Init | src/java/Evaluator.java:35-38 | maxSum holds iff the options contain "max" |
| Evaluator.Evaluator.GetStats | src/java/Evaluator.java:69-75 | exactly the two counters, written in decimal |
| Evaluator.ParseIntToString | src/java/Evaluator.java:69-75 | the decimal string of a counter reads back as the counter |
| SkylinePoint.EmptyPoint | src/java/SkylinePoint.java:33-36 | no items, sum = value = 0 |
| SkylinePoint.SuffixItems | src/java/SkylinePoint.java:50-53 | the items from beginPos on |
| SkylinePoint.ToActualItems | src/java/SkylinePoint.java:55-58 | items mapped through origItem, sum and value unchanged |
| SkylinePoint.Contains | src/java/SkylinePoint.java:64-67 | true iff the item occurs |
| SkylinePoint.HasSubset | src/java/SkylinePoint.java:69-72 | true iff every element of the set occurs |
| SkylinePoint.HasSubsetPoint | src/java/SkylinePoint.java:74-77 | true iff every item of the other point occurs |
| SkylinePoint.SortInts | src/java/SkylinePoint.java:92 | Arrays.sort gives the sorted permutation |
| SkylinePoint.Extend | src/java/SkylinePoint.java:89-94 | a sorted array one longer holding the old items plus the new one |
| SkylinePoint.MissingMembers | src/java/SkylinePoint.java:96-109 | the candidate items are exactly those in range not in the point, increasing |
| SkylinePoint.ExtensionSets | src/java/SkylinePoint.java:96-109 | one extension per absent item, in increasing item order |
| SkylinePoint.ExtensionSetsMembers | src/java/SkylinePoint.java:96-109 | the extensions are exactly Extend(p, x) for absent items x |
| SkylinePoint.Equals | src/java/SkylinePoint.java:117-128 | compares only the first |this.items| items; ignores sum and value |
| PointUtils.ComparePoints | src/java/Utils.java:223-239 | the sign of the sum difference, reversed for max-sum |
| PointUtils.SkylineAsArray | src/java/Utils.java:200-221 | n·(k+2) cells; point i's sum, value and items in column-major columns 0, 1, 2.. |
| PointUtils.WriteRow | src/java/Utils.java:212-218 | one point's sum, value and items land in its row only |
| PointUtils.WriteCell | src/java/Utils.java:213-216 | one column-major write changes exactly one cell |
| PointUtils.ToActualItemsAll | src/java/Utils.java:241-247 | every point's items mapped through origItem |
| PointUtils.RecordsIsFilter | src/java/ExactSkylineParallel.java:225-234 | the running-max scan keeps exactly the records (points beating all earlier ones) |
| PointUtils.RecordsRise | src/java/LevelwiseSkyline.java:101-111 | the first point is kept and each kept value beats the previous one |
| PointUtils.RecordFilterMembers | src/java/LevelwiseSkyline.java:101-111 | records are drawn from the input |
| PointUtils.RecordFilterSorted | src/java/ExactSkylineParallel.java:223-234 | filtering a sorted list keeps it sorted |
| Binheap.Parent | src/java/Binheap.java:82-85 | parent(0) = −1; any other node's parent is smaller |
| Binheap.ParentChild | src/java/Binheap.java:82-90 | parent is inverse to both children |
| Binheap.RightChild | src/java/Binheap.java:87-90 | rightChild = 2·node+2, one past the left child |
| Binheap.SiftUpStep | src/java/Binheap.java:43-47 | moving the parent down keeps heap order except at the hole |
| Binheap.SiftDownStep | src/java/Binheap.java:64-76 | moving the smaller child up keeps heap order except at the hole |
| Binheap.RootIsMinAll | src/java/Binheap.java:52-60 | the root of a heap has minimal value |
| Binheap.RemoveRoot | src/java/Binheap.java:54-57 | moving the last element to the root removes exactly the old root |
| Binheap.AddLeaf | src/java/Binheap.java:41 | appending a leaf breaks heap order only above it |
| Binheap.SiftUpDone | src/java/Binheap.java:43 | when the parent is not larger, the heap is ordered |
| Binheap.PickChild | src/java/Binheap.java:66-74 | the chosen child is the smaller one, and smaller than the moving value |
| Binheap.SiftDownDone | src/java/Binheap.java:64 | when no child is smaller, the heap is ordered |
| Binheap.Binheap.constructor | src/java/Binheap.java:28-32 | an empty heap over an array of the given size |
| Binheap.Binheap.ContainsData | src/java/Binheap.java:34-37 | true iff e > 0 |
| Binheap.Binheap.NodeValue | src/java/Binheap.java:92-98 | slots at index ≥ e read as +∞ |
| Binheap.Binheap.Push | src/java/Binheap.java:39-50 | adds exactly bo, e grows by 1, heap order kept |
| Binheap.Binheap.Pop | src/java/Binheap.java:52-79 | returns the old root, a minimal element; removes exactly it, e shrinks by 1, slot e cleared, heap order kept |
| Binheap.Binheap.SiftDown | src/java/Binheap.java:61-78 | the sift-down loop restores heap order and keeps the elements |
| Binheap.Binheap.SinkHole | src/java/Binheap.java:64-76 | one turn moves the smaller child up into the hole, keeps the elements and heap order away from the hole |
| LevelwiseSkyline.EvaluateAll | src/java/LevelwiseSkyline.java:103-106 | each candidate becomes the point of its sum and value |
| LevelwiseSkyline.InitialCandidates | src/java/LevelwiseSkyline.java:47-50 | exactly the singletons {i} |
| LevelwiseSkyline.ToArray | src/java/LevelwiseSkyline.java:99 | the set's elements without repeats, in an unspecified order |
| LevelwiseSkyline.UpdateSkyline | src/java/LevelwiseSkyline.java:96-112 | the strict records of the candidates sorted by sum |
| LevelwiseSkyline.UpdateSkylineProperties | src/java/LevelwiseSkyline.java:99-130 | the output is a sum-sorted subsequence of evaluated candidates with strictly increasing values |
| LevelwiseSkyline.UpdateCandidates | src/java/LevelwiseSkyline.java:84-94 | the union of extensionSets over the skyline, deduplicated by item array |
| LevelwiseSkyline.AllExtensionsIff | src/java/LevelwiseSkyline.java:84-94 | a set is a candidate iff it is Extend(p, x) for a skyline point p and an absent item x |
| LevelwiseSkyline.AddExtensions | src/java/LevelwiseSkyline.java:88-92 | the candidate set grows by exactly one point's extensions |
| LevelwiseSkyline.AddAll | src/java/LevelwiseSkyline.java:88-92 | addAll adds exactly the listed sets to the candidate set |
| LevelwiseSkyline.AllExtensionsOwner | src/java/LevelwiseSkyline.java:84-94 | every candidate is the extension of some skyline point by an item it lacks |
| LevelwiseSkyline.FilterSkyline | src/java/LevelwiseSkyline.java:76-82 | input unchanged when its size ≤ skylineSize, otherwise the hypervolume filter's result |
| LevelwiseSkyline.NextLevel | src/java/LevelwiseSkyline.java:54-58 | extending level-ℓ points yields sorted item sets of size ℓ+1 |
| LevelwiseSkyline.ComputeSkyline | src/java/LevelwiseSkyline.java:44-67 | after k−1 levels all points are evaluated k-subsets (1-subsets when k ≤ 1), mapped to actual ids iff returnActual |
| LevelwiseSkyline.FirstLevel | src/java/LevelwiseSkyline.java:47-51 | the skyline of the singletons holds evaluated 1-subsets |
| LevelwiseSkyline.ExpandLevel | src/java/LevelwiseSkyline.java:55-60 | one level turns evaluated ℓ-subsets into evaluated (ℓ+1)-subsets, filter included |
| FastSkyline.MinGainIsMin | src/java/FastSkyline.java:318-332 | mingain is the least recorded gain of a strictly smaller subset of the base, capped by the singleton value |
| FastSkyline.MaxFrom | src/java/FastSkyline.java:336-344 | the maximum singleton value over items i..n−1 |
| FastSkyline.InitUnitBound | src/java/FastSkyline.java:336-344 | unitBound[i] is the maximum singleton value over items ≥ i |
| FastSkyline.UnitBoundNonIncreasing | src/java/FastSkyline.java:336-344 | the unit bound is non-increasing in i |
| FastSkyline.MarginalGainUB.constructor | src/java/FastSkyline.java:289-302 | unit bounds, singleton values and empty gain lists |
| FastSkyline.MarginalGainUB.AddGain | src/java/FastSkyline.java:309-312 | appends one pair to that item's list only |
| FastSkyline.MarginalGainUB.BoundExceedsMax | src/java/FastSkyline.java:314-334 | true iff base value + minimal known gain ≥ max; the early exits agree |
| FastSkyline.LexBeforeTrans | src/java/FastSkyline.java:156-180 | the tie-breaking order is transitive |
| FastSkyline.PrecedesTrans | src/java/FastSkyline.java:156-180 | the candidate order (sum, then items) is transitive |
| FastSkyline.CompareCandidates | src/java/FastSkyline.java:156-180 | negative iff a precedes b by sum (reversed for max-sum), then lexicographically |
| FastSkyline.MinIndex | src/java/FastSkyline.java:145 | the polled candidate has no predecessor in the queue |
| FastSkyline.ExpansionIterator.constructor | src/java/FastSkyline.java:192-200 | the cursor starts at −1 |
| FastSkyline.ExpansionIterator.ScanFromFinds | src/java/FastSkyline.java:212-221 | a found item is in range, absent from the base, not exhausted, and passes the bound |
| FastSkyline.ExpansionIterator.Skips | src/java/FastSkyline.java:212-215 | an item is skipped iff it is in the base or fails the bound |
| FastSkyline.ExpansionIterator.Next | src/java/FastSkyline.java:202-226 | returns the next admissible item after the cursor, or null for good once exhausted |
| FastSkyline.SkylineExpander.constructor | src/java/FastSkyline.java:120-136 | for a non-empty skyline (the queue's initial capacity must be positive): one iterator per base point, at most one queued candidate per base point |
| FastSkyline.OpenIterators | src/java/FastSkyline.java:127-134 | the constructor loop opens one fresh iterator per skyline point and queues each point's first candidate, if any |
| FastSkyline.SkylineExpander.Next | src/java/FastSkyline.java:143-151 | returns a minimal queued candidate and refills only from its own base point's iterator |
| FastSkyline.SkylineExpander.Refill | src/java/FastSkyline.java:146-149 | only the polled base point's cursor advances |
| FastSkyline.ProcessCandidate | src/java/FastSkyline.java:81-99 | if the bound passes, the gain is recorded; the point is appended iff its value is strictly above max, which then rises |
| FastSkyline.ExpandStep | src/java/FastSkyline.java:69-77 | a candidate equal to its predecessor is skipped; the expander's measure drops |
| FastSkyline.Consider | src/java/FastSkyline.java:73-76 | a candidate equal to the previous one changes nothing |
| FastSkyline.ExpandSkyline | src/java/FastSkyline.java:61-79 | from a non-empty level, the next level holds evaluated (ℓ+1)-subsets with strictly increasing values |
| FastSkyline.ComputeSkyline | src/java/FastSkyline.java:37-52 | fails with no items (the bound table cannot be built) or when a level below k comes out empty (it cannot be expanded); otherwise all points are evaluated k-subsets, mapped to actual ids |
| GreedySubmodularMaximizer.Top | src/java/GreedySubmodularMaximizer.java:34-39 | poll takes an entry of largest gain |
| GreedySubmodularMaximizer.InitQueue | src/java/GreedySubmodularMaximizer.java:41-43 | every item paired with its singleton gain |
| GreedySubmodularMaximizer.Recompute | src/java/GreedySubmodularMaximizer.java:74-75 | top.gain = f(solution + top) − fncValue |
| GreedySubmodularMaximizer.Init | src/java/GreedySubmodularMaximizer.java:47-52 | the first item polled starts the solution, fncValue is its gain, and best's gain becomes 0 |
| GreedySubmodularMaximizer.Step | src/java/GreedySubmodularMaximizer.java:57-85 | one turn fails only on an empty queue, keeps the queue size, and appends at most best |
| GreedySubmodularMaximizer.GreedySolution | src/java/GreedySubmodularMaximizer.java:57-88 | on return the solution has exactly max(k, 1) items, all in range |
| GreedySubmodularMaximizer.GreedyFirst | src/java/GreedySubmodularMaximizer.java:47-50 | the first item has the largest singleton gain |
| GreedySubmodularMaximizer.GreedyNullPoll | src/java/GreedySubmodularMaximizer.java:47-58 | the queue runs dry iff there are no items, or one item and k ≥ 2 |
| GreedySubmodularMaximizer.GetPartialSolution | src/java/GreedySubmodularMaximizer.java:91-98 | length |solution|+1 with the solution as prefix |
| GreedySubmodularMaximizer.FillQueue | src/java/GreedySubmodularMaximizer.java:41-43 | the initial queue |
| GreedySubmodularMaximizer.Turn | src/java/GreedySubmodularMaximizer.java:57-85 | one loop turn performs Step and keeps the partial array in sync |
| GreedySubmodularMaximizer.FirstPoll | src/java/GreedySubmodularMaximizer.java:47-52 | the first poll and the solution it starts |
| GreedySubmodularMaximizer.FindMax | src/java/GreedySubmodularMaximizer.java:32-89 | the method computes the Greedy outcome |
| GreedySubmodularMaximizer.RunLoop | src/java/GreedySubmodularMaximizer.java:57-86 | the while loop computes Loop |
| GreedySubmodularMaximizer.LoopTurn | src/java/GreedySubmodularMaximizer.java:57-85 | one turn either ends the loop with its outcome, or takes one Step after which the rest of the loop yields the same outcome |
| GreedySubmodularMaximizer.GreedyRepeatsItem | src/java/GreedySubmodularMaximizer.java:57-71 | with 2 items, f = 1 on non-empty sets and k = 2, the solution is [0, 0] |
| GreedySubmodularMaximizer.LazyStepPool | src/java/GreedySubmodularMaximizer.java:57-85 | a corrected turn keeps every item in exactly one of queue, best and solution |
| GreedySubmodularMaximizer.LazyGreedySolution | src/java/GreedySubmodularMaximizer.java:57-88 | the corrected loop returns k distinct in-range items |
| GreedySubmodularMaximizer.LazyGreedyDistinctItems | src/java/GreedySubmodularMaximizer.java:57-71 | on the example above the corrected loop returns [0, 1] |
| SetCoverEvaluator.SumOfConcat | src/java/SetCoverEvaluator.java:72-79 | the sum is additive over concatenation |
| SetCoverEvaluator.SetCoverEvaluator.constructor | src/java/SetCoverEvaluator.java:26-29 | an uninitialised evaluator |
| SetCoverEvaluator.SetCoverEvaluator.InitArrays | src/java/SetCoverEvaluator.java:50-59 | values[i] = input[origItem[i]] and column i is original column origItem[i], with origItem from sortedIdx; fails iff the data size mismatches |
| SetCoverEvaluator.SetCoverEvaluator.NumItems | src/java/SetCoverEvaluator.java:61-64 | numItems = values.length |
| SetCoverEvaluator.SetCoverEvaluator.SumItem | src/java/SetCoverEvaluator.java:66-70 | values[item]; only sumCalls grows, by 1 |
| SetCoverEvaluator.SetCoverEvaluator.SumSet | src/java/SetCoverEvaluator.java:72-79 | Σ values[item]; only sumCalls grows, by 1 |
| SetCoverEvaluator.SetCoverEvaluator.SumValues | src/java/SetCoverEvaluator.java:74-78 | the loop sums values over the items |
| SetCoverEvaluator.SetCoverEvaluator.SubmItem | src/java/SetCoverEvaluator.java:81-89 | the column sum; only submCalls grows, by 1 |
| SetCoverEvaluator.SetCoverEvaluator.ColumnTotal | src/java/SetCoverEvaluator.java:84-88 | the loop sums column item over all rows |
| SetCoverEvaluator.SetCoverEvaluator.SubmSet | src/java/SetCoverEvaluator.java:91-103 | the number of rows with a 1 in a chosen column; only submCalls grows, by 1 |
| SetCoverEvaluator.SetCoverEvaluator.CoverAll | src/java/SetCoverEvaluator.java:94-101 | the loops collect exactly the rows covered by some chosen item |
| SetCoverEvaluator.SetCoverEvaluator.CoverColumn | src/java/SetCoverEvaluator.java:95-100 | the inner loop adds exactly the rows covered by one more item |
| SetCoverEvaluator.SetCoverEvaluator.CoveredBound | src/java/SetCoverEvaluator.java:91-103 | the covered-row count is at most nrow |
| SetCoverEvaluator.SetCoverEvaluator.CoveredMonotone | src/java/SetCoverEvaluator.java:91-103 | adding items never lowers the count |
| SetCoverEvaluator.SetCoverEvaluator.CoveredSubmodular | src/java/SetCoverEvaluator.java:91-103 | the marginal gain of an item shrinks as the set grows |
| SetCoverEvaluator.SetCoverEvaluator.ColumnSumCovers | src/java/SetCoverEvaluator.java:81-103 | on a 0/1 matrix the column sum equals the single-item covered count |
| SubgroupSetEvaluator.PatternBit | src/java/SubgroupSetEvaluatorIntCover.java:59-62 | bit j of the bucket is set iff the j-th cover bit is |
| SubgroupSetEvaluator.PatternInjective | src/java/SubgroupSetEvaluatorIntCover.java:59-62 | distinct row patterns give distinct buckets |
| SubgroupSetEvaluator.HistogramCounts | src/java/SubgroupSetEvaluatorIntCover.java:58-64 | counter[b] counts the rows with pattern b |
| SubgroupSetEvaluator.HistogramSum | src/java/SubgroupSetEvaluatorIntCover.java:58-65 | the counters sum to the number of rows |
| SubgroupSetEvaluator.Trim | src/java/SubgroupSetEvaluatorBitCover.java:103 | the trimmed line has no control or space character at either end |
| SubgroupSetEvaluator.TrimLines | src/java/SubgroupSetEvaluatorIntCover.java:73-75 | each line of the cover file is trimmed, in order |
| SubgroupSetEvaluator.TrimSlice | src/java/SubgroupSetEvaluatorBitCover.java:103 | trim drops exactly the leading and trailing characters ≤ ' ' |
| SubgroupSetEvaluator.Ones | src/java/SubgroupSetEvaluatorBitCover.java:105-110 | bit i is set iff character i is '1' |
| SubgroupSetEvaluator.LineAgreement | src/java/SubgroupSetEvaluatorIntCover.java:80 | on a 0/1 line the digit value is 1 iff the bit is set |
| SubgroupSetEvaluatorIntCover.LoadCovers | src/java/SubgroupSetEvaluatorIntCover.java:68-85 | C(i, j) is digit i of trimmed line j; fails iff there are no lines or a line is too short or not a digit |
| SubgroupSetEvaluatorIntCover.LoadTrimmed | src/java/SubgroupSetEvaluatorIntCover.java:76-82 | fails iff there are no lines or a line is too short or not a digit; otherwise C(i, j) is digit i of line j |
| SubgroupSetEvaluatorIntCover.LoadArranged | src/java/SubgroupSetEvaluatorIntCover.java:39-40 | column c of the arranged covers is line order[c] of the file |
| SubgroupSetEvaluatorIntCover.FillColumn | src/java/SubgroupSetEvaluatorIntCover.java:77-82 | fills one column from one line, other columns unchanged |
| SubgroupSetEvaluatorIntCover.IntCoverEvaluator.Init | src/java/SubgroupSetEvaluatorIntCover.java:35-44 | qualities and covers arranged by sortedIdx; nrow is the matrix row count |
| SubgroupSetEvaluatorIntCover.IntCoverEvaluator.CountOnes | src/java/SubgroupSetEvaluatorIntCover.java:46-53 | the column sum, which is the count of ones on 0/1 data |
| SubgroupSetEvaluatorIntCover.IntCoverEvaluator.FillCounters | src/java/SubgroupSetEvaluatorIntCover.java:55-66 | 2^m counters; counter[b] counts the rows with pattern b; they sum to nrow |
| SubgroupSetEvaluatorIntCover.CountRows | src/java/SubgroupSetEvaluatorIntCover.java:58-64 | the row loop yields the histogram of the rows' patterns |
| SubgroupSetEvaluatorIntCover.RowPattern | src/java/SubgroupSetEvaluatorIntCover.java:59-62 | the inner loop ORs the row's cover bits into the bucket |
| SubgroupSetEvaluatorIntCover.IntCoverEvaluator.BucketBit | src/java/SubgroupSetEvaluatorIntCover.java:59-62 | a row's bucket has bit j set iff covers(row, itemset[j]) = 1 |
| SubgroupSetEvaluatorBitCover.ParseBitLine | src/java/SubgroupSetEvaluatorBitCover.java:105-110 | bit i is set iff character i is '1' |
| SubgroupSetEvaluatorBitCover.SetBit | src/java/SubgroupSetEvaluatorBitCover.java:84-88 | ORs bit j into exactly the buckets of the cover's rows |
| SubgroupSetEvaluatorBitCover.FillBuckets | src/java/SubgroupSetEvaluatorBitCover.java:80-89 | bucket[row] has bit i set iff the row is in the cover of itemset[i] |
| SubgroupSetEvaluatorBitCover.CountBuckets | src/java/SubgroupSetEvaluatorBitCover.java:91-95 | the counter is the histogram of the buckets |
| SubgroupSetEvaluatorBitCover.BitCoverEvaluator.LoadBitCovers | src/java/SubgroupSetEvaluatorBitCover.java:98-118 | one bit set per line; nrow is the length of the last trimmed line |
| SubgroupSetEvaluatorBitCover.ParseLines | src/java/SubgroupSetEvaluatorBitCover.java:102-112 | one bit set per line, and nrow is the last line's length (unchanged with no lines) |
| SubgroupSetEvaluatorBitCover.BitCoverEvaluator.Init | src/java/SubgroupSetEvaluatorBitCover.java:60-71 | cover i is the cover of original item origItem[i] |
| SubgroupSetEvaluatorBitCover.Arrange | src/java/SubgroupSetEvaluatorBitCover.java:66-70 | result[i] = bc[origItem[i]] for every i |
| SubgroupSetEvaluatorBitCover.BitCoverEvaluator.CountOnes | src/java/SubgroupSetEvaluatorBitCover.java:73-76 | the cardinality of the item's cover |
| SubgroupSetEvaluatorBitCover.BitCoverEvaluator.FillCounters | src/java/SubgroupSetEvaluatorBitCover.java:78-96 | 2^m counters; counter[b] counts the rows with pattern b; they sum to nrow |
| CoverAgreement.UniformLoadable | src/java/SubgroupSetEvaluatorIntCover.java:76-82 | equally long 0/1 lines load without error |
| CoverAgreement.PatternsAgree | src/java/SubgroupSetEvaluatorBitCover.java:78-96 | cells and covers that agree give the same row patterns |
| CoverAgreement.Agree | src/java/CoverTest.java:22-25 | on the same lines both evaluators see the same rows and ones |
| CoverAgreement.InitBoth | src/java/CoverTest.java:22-25 | both evaluators initialised from the same data agree cell by cell |
| CoverAgreement.CompareOracles | src/java/CoverTest.java:22-25 | countOnes and fillCounters of the two variants return equal results |
| SkylineArgs.ParseArgs | src/java/Skyline.java:115-147 | the parse loop computes the specification ParseUpTo |
| SkylineArgs.FailureSticks | src/java/Skyline.java:129-143 | once an error is hit the parse stays failed |
| SkylineArgs.FailsIffMalformed | src/java/Skyline.java:129-143 | fails iff a value comes first or follows another value |
| SkylineArgs.KeysAreFlags | src/java/Skyline.java:121-126 | the keys are exactly the flag names |
| SkylineArgs.LastFlagWins | src/java/Skyline.java:121-138 | a flag maps to the token right after its last occurrence when that token is a value, else to "" |

## Left out

- Concurrency: the thread pool, `IntervalRunnable` and the lock on `setValue`. The intervals run one after another on one floor map (`ExactSkylineParallel.RunIntervals`), so interleavings are not modelled.
- Timing, logging and peak-memory tracking (`nanoTime`, `System.err`, `updatePeakMemory`, `printStats`, `printCovers`, `toString`, `itemsString`): they produce output only.
- File I/O: `Utils.fileLineIterator` and the file-reading halves of `loadQualities`, `loadCovers` and `loadBitCovers`. The loaders take the file's lines as a parameter.
- The options map of `SetCoverEvaluator.init(Map)`. Only the array-based `init` is modelled.
- `InfmaxEvaluator` and `Utils.sample`: Monte-Carlo sampling with `Math.random`, floating-point averages and graph files.
- The entropies of `SubgroupSetEvaluator` (`submodularFnc`, `calculateEntropy`): these are floating-point `log10` arithmetic. Only the integer histograms behind them are modelled.
- `SubgroupSetEvaluator.sumFnc` is the same quality sum as `SetCoverEvaluator.sumFnc` (`SetCoverEvaluator.SumOf`), so it is not modelled twice.
- `BasicHypervolumeFilter`: its objective is a floating-point area product. Filters take it as the `hvFilter` parameter, assumed only to return elements of its input (`LevelwiseSkyline.Selects`).
- `ScalarizationSkyline`, `SeedSelector`, `Skyline.run`, `main`, `Test`, `TestMatrix` and `CoverTest`: drivers and wiring. `CoverTest` is cited only as the promise that the two cover evaluators agree.
- IEEE doubles: NaN, rounding and the `(int)Math.signum` casts in comparators. Values are unbounded `int`s with explicit ±∞ sentinels.
- Tie order of `PriorityQueue`: `ExactSkyline.Border.Poll` and `FastSkyline.MinIndex` return some minimal element, and `GreedySubmodularMaximizer.Top` the first largest gain in queue order, not Java's particular choice among ties.
- GreedySubmodularMaximizer.Top: picks the first of equal gains in the model's queue order; Java's binary heap may hand out another entry of the same gain.
- `HashSet` iteration order: `LevelwiseSkyline.ToArray` leaves the order of the candidates open.
- `Utils.arrayMax` and `Utils.arrayHashCode`: neither is used by the core.
- `SkylinePoint.hashCode`, `itemAt` and `size`, `IntMatrix.nrow()` and `ncol()`, `SearchTreeNode.size()` and `copyOfItems()`: plain field reads, modelled as the fields themselves.
- The `IntMatrix` data constructor throws on a size mismatch. `IntMatrix.IntMatrix.FromData` returns null instead, and loaders report failure as `false` or null.
- `GreedySubmodularMaximizer.FindMax`: the loop has no bound, so it takes a `fuel` parameter. It returns `OutOfFuel` when the fuel runs out, and `NullPoll` where Java would dereference a null poll.
- `ExactSkylineParallel.ComputeSkyline`: the `_INIT_WITH_FAST` seeding takes the initial skyline as a parameter instead of running `FastSkyline`. The result's points are only stated to be ordered; their exact identity is not tied to a reference skyline.
- `ExactSkyline.ComputeSkyline` and `ExactSkylineParallel.ComputeSkyline`: they do not state that the result is the full skyline, because the search's completeness relies on the prefix bound being a true upper bound, which holds only for submodular oracles.
- ExactSkyline.ComputeSkylineInterval: states soundness (every emitted point is recorded in the floor) but not completeness, for the same reason.
- ExactSkylineParallel.ComputeInterval: states soundness but not completeness, for the same reason.
- ExactSkyline.ComputeSkyline: requires 1 ≤ k ≤ numItems. Java fails outside it: k = 0 asks for a bound table with −1 columns, and k > numItems evaluates positions past the last item. That failure is not modelled.
- ExactSkylineParallel.ComputeSkyline: requires 1 ≤ k ≤ numItems, for the same reason.
- Distinct items in the exact search: the tree reaches nodes whose positions repeat an item (`SearchTreeNode.DegenerateLeftChild`), and whether such a node is emitted depends on the oracle, so the exact search's points are only stated to have k in-range positions.
- SetCoverEvaluator.SetCoverEvaluator.InitArrays: requires numSets = |values|. Java accepts other sizes: it throws in `rearrangeColumns` when a permuted column index is out of range, and otherwise builds an evaluator whose column count differs from its item count.
- SubgroupSetEvaluatorIntCover.IntCoverEvaluator.Init: requires one quality per cover line. With more lines Java's `rearrangeColumns` throws; with fewer it may throw or go on with mismatched sizes.
- SubgroupSetEvaluatorBitCover.BitCoverEvaluator.Init: requires one quality per cover line. When the counts differ Java throws if a permuted index falls outside the covers, and otherwise goes on with mismatched sizes.
- SubgroupSetEvaluatorIntCover.IntCoverEvaluator.FillCounters: requires 0/1 cells and at most 30 items. Java ORs `cell << j`, so a loaded digit of 2..9 sets a neighbouring bit or indexes past the counter array, and 31 or more items overflow `1 << length`.
- SubgroupSetEvaluatorBitCover.BitCoverEvaluator.FillCounters: requires every set bit to lie below nrow and at most 30 items. Java throws `ArrayIndexOutOfBoundsException` on a bit at or beyond nrow, which happens when an earlier cover line is longer than the last one.
- SubgroupSetEvaluatorIntCover.LoadCovers: only '0'..'9' count as digits. Java's `parseInt` also accepts other Unicode decimal digits (such as Arabic-Indic ones), and Java indexes strings by UTF-16 code units where the model indexes by `char`.
- SubgroupSetEvaluatorIntCover.LoadTrimmed: the same digit and code-unit restriction as `LoadCovers`.
- `FastSkyline.ComputeSkyline` and `LevelwiseSkyline.ComputeSkyline`: `configure` is modelled as the `skylineSize` parameter.

## Findings

| source | as written | input that shows it | evidently intended | confidence | as-written member | corrected member |
|---|---|---|---|---|---|---|
| src/java/ExactSkyline.java:171-182 | `getPrefixBound` allocates a table with k−1 columns, then writes column 0 of every row from 1 on | k = 1 with two or more items: `B.set(1, 0, …)` writes flat index 1 of a zero-length array | with k = 1 no bound is ever read (`processChildNode` uses +∞ when k − j < 2), so no cell should be written | not executed | ExactSkyline.PrefixBoundWritesOutsideForK1 | ExactSkyline.GetPrefixBound |
| src/java/GreedySubmodularMaximizer.java:57-71 | after `best` is appended, its gain is reset to 0 but it stays `best`, so it can be appended again | 2 items, f(S) = 1 for every non-empty S, k = 2: item 1's recomputed gain is 0, which does not beat 0, so the result is [0, 0] | a solution of k distinct items; after appending, the next polled item must be re-evaluated | not executed | GreedySubmodularMaximizer.GreedyRepeatsItem | GreedySubmodularMaximizer.LazyGreedySolution |
