# shoveit, modelled in Dafny

This project models the algorithmic core of the shoveit Java repository:

- the knight's tour and n-queens backtrackers and their shared grid helpers;
- two subset-sum enumerators:
  - one reports every zero-sum subset;
  - one stops at the first zero-sum subset it meets;
- four array sorts:
  - top-down merge sort;
  - insertion sort, which the repository has twice;
  - selection sort;
  - bubble sort;
- the recursive binary-search-tree `Node`;
- the hexadecimal converter.

Each Java file is modelled in its own form.

- **Board searches.** Code that updates a grid becomes methods over `array2<int>` with loop invariants. The backtracking recursion carries a ghost path or queen list. From it, the model proves two things:
  - when the search fails, the grid is back to what it was;
  - when it succeeds, the grid is a knight's tour or an n-queens solution.
- **Sorts.** They work in place on an `array<T>`. Elements are compared through an integer key, the total preorder a Java comparator induces. Each method is proved against a specification on sequences (`SortSpec`):
  - sorted;
  - a permutation;
  - where the code promises it, stable.
- **Tree.** The tree `Node` is a class with `left`, `right` and `value` fields. It carries two ghost fields: its footprint and its shape as a `SearchTree.Tree` value. Each method is specified by a function on that value, and the lemmas about those functions live in `SearchTree`:
  - `Insert` for `add`;
  - `Delete` for `remove`;
  - `Count` for `contains`;
  - `Size` for `size`;
  - `Leftmost` and `Rightmost` for `min` and `max`.
- **Converter.** `dec2Hex` is a recursive function. `hex2Dec` is a loop, proved equal to a Horner-style reading of the digits.

Some Java loops and recursive calls are split into helper methods, so that each proof stays small. Every helper runs the same steps as the Java code it splits:

- `TryMoves` and `TryCells` are the candidate loops of `moveTo` and `move`.
- `KeepCandidates` is the eight `isCandidate` tests of `getAvailableMoves`, written as one loop over the eight offsets in their order.
- `FillQueens`, `FillRow` and `FillAt` are the scan of `getAvailableCells`.
- `BlockRay` is one diagonal loop of `fillRange`.
- `MergeInto`, `DrainRight` and `DrainLeft` are the three loops of `merge`.
- `Exchange` is one step of the insertion loop.
- `AddLeft` and `AddRight` are the two branches of `add`.
- `RemoveInLeft`, `RemoveInRight` and `ReplaceBySuccessor` are the recursive calls of `remove`.

Error exits of the Java code are modelled as outcomes, not excluded by preconditions:

- `null` from the knight's tour for a start off the board;
- the exceptions a negative array size or a negative index raises;
- the `NullPointerException` of `Node.remove` on a root without a parent;
- the out-of-bounds table lookup of `dec2Hex` on a negative number;
- the unbounded recursion of the first-match subset sum on an empty set.

## Model

| member | source | states |
|---|---|---|
| ChessBoard.FeedMatrix | src/main/java/skatepark/shoveit/backtracking/ICheesBoard.java:5-11 | afterwards every cell of the rows x columns grid holds `value` |
| ChessBoard.Place | src/main/java/com/skatepark/shoveit/backtracking/KnightTour.java:22 | writing one cell changes exactly that cell of the grid's contents |
| ChessBoard.PutBack | src/main/java/com/skatepark/shoveit/backtracking/KnightTour.java:22-35 | writing back the value a cell held before restores the whole grid, which is how a failed step undoes its write |
| ChessBoard.WriteStep | src/main/java/com/skatepark/shoveit/backtracking/KnightTour.java:21-29 | marking an empty cell with the next step number extends the recorded path by that cell, and removes exactly that cell from the empty cells, so the recursion terminates |
| ChessBoard.PathLength | src/test/java/com/skatepark/shoveit/backtracking/KnightTourTest.java:37-48 | a path of distinct cells on a rows x columns board has at most rows*columns cells, and exactly that many when it covers the board |
| KnightTour.IsFull | src/main/java/com/skatepark/shoveit/backtracking/KnightTour.java:39-48 | returns true exactly when no cell holds -1 |
| KnightTour.GetAvailableMoves | src/main/java/com/skatepark/shoveit/backtracking/KnightTour.java:51-102 | returns the on-board, still empty knight targets of the cell, at most eight, in the fixed offset order; a cell is returned exactly when it is one knight move away, on the board and -1 |
| KnightTour.IsCandidate | src/main/java/com/skatepark/shoveit/backtracking/KnightTour.java:104-109 | a target passes exactly when it lies on the board and its cell still holds -1 |
| KnightTour.Candidates | src/main/java/com/skatepark/shoveit/backtracking/KnightTour.java:51-102 | the kept targets, in the order tried, are never more than the tried ones, and each of them is a tried target that passes `isCandidate` |
| KnightTour.KeepCandidates | src/main/java/com/skatepark/shoveit/backtracking/KnightTour.java:52-101 | testing the targets one after another and adding each that passes yields exactly the candidates in the order tried |
| KnightTour.CandidatesMembership | src/main/java/com/skatepark/shoveit/backtracking/KnightTour.java:104-109 | a target is kept exactly when it is inside the grid and its cell is -1, and the kept targets are never more than the tried ones |
| KnightTour.KnightTargetsAreKnightMoves | src/main/java/com/skatepark/shoveit/backtracking/KnightTour.java:51-102 | the eight tried offsets are exactly the knight moves |
| KnightTour.MoveTo | src/main/java/com/skatepark/shoveit/backtracking/KnightTour.java:21-37 | on false the grid is exactly as before the call; when writing the step fills the grid it returns true at once with the path extended by this cell; on true the grid is full and records a knight path that extends the path so far with this cell, the cell's own step included |
| KnightTour.TryMoves | src/main/java/com/skatepark/shoveit/backtracking/KnightTour.java:27-33 | the candidate loop: on failure of every candidate the grid is unchanged, and on the first success the grid is a full recorded path extending the current one |
| KnightTour.ExtendPath | src/main/java/com/skatepark/shoveit/backtracking/KnightTour.java:27-29 | a knight move to an unvisited on-board cell extends a knight path |
| KnightTour.TourIsKnightTour | src/test/java/com/skatepark/shoveit/backtracking/KnightTourTest.java:37-48 | a full grid recording a knight path holds each of 0 .. rows*columns-1 exactly once, and the cells of consecutive numbers are a knight move apart |
| KnightTour.Calc | src/main/java/com/skatepark/shoveit/backtracking/KnightTour.java:8-19 | null exactly when the start row or column is past the board; the array exceptions for negative sizes or a negative start; otherwise a fresh rows x columns grid that is either a knight's tour starting with 0 at the start cell or entirely -1 |
| EightQueenPuzzle.Blocked | src/main/java/com/skatepark/shoveit/backtracking/EightQueenPuzzle.java:65-90 | around one queen a cell ends up -2 or keeps its value, and it stays -1 exactly when it was -1 and the queen does not attack it |
| EightQueenPuzzle.MaskAdd | src/main/java/com/skatepark/shoveit/backtracking/EightQueenPuzzle.java:47-53 | filling the range of one more queen is the same as the mask of the enlarged queen set |
| EightQueenPuzzle.BlockRay | src/main/java/com/skatepark/shoveit/backtracking/EightQueenPuzzle.java:70-89 | one diagonal loop turns exactly the -1 cells on its ray into -2 and leaves every other cell alone |
| EightQueenPuzzle.FillRange | src/main/java/com/skatepark/shoveit/backtracking/EightQueenPuzzle.java:65-90 | the whole row and column of the queen become -2, the -1 cells on its four diagonals become -2, and nothing else changes |
| EightQueenPuzzle.CopyOf | src/main/java/com/skatepark/shoveit/backtracking/EightQueenPuzzle.java:43-46 | a fresh grid of the same shape holding the same values, so the matrix itself is never written |
| EightQueenPuzzle.FillQueens | src/main/java/com/skatepark/shoveit/backtracking/EightQueenPuzzle.java:47-53 | after the row-major scan every cell of the copy is the mask of the queens the scan met, each of which is a queen of the matrix |
| EightQueenPuzzle.FillRow | src/main/java/com/skatepark/shoveit/backtracking/EightQueenPuzzle.java:48-52 | one row of that scan keeps the copy equal to the mask of the queens met so far |
| EightQueenPuzzle.FillAt | src/main/java/com/skatepark/shoveit/backtracking/EightQueenPuzzle.java:49-51 | a cell still showing a queen adds that queen to the mask; the cell is negative afterwards and negative cells stay negative |
| EightQueenPuzzle.CollectEmpty | src/main/java/com/skatepark/shoveit/backtracking/EightQueenPuzzle.java:54-62 | returns exactly the -1 cells of the copy, in strictly increasing row-major order |
| EightQueenPuzzle.GetAvailableCells | src/main/java/com/skatepark/shoveit/backtracking/EightQueenPuzzle.java:42-63 | returns only empty cells of the matrix, in row-major order, and, when no two queens share a row or column, exactly the empty cells that no queen attacks |
| EightQueenPuzzle.QueensOnOwnLines | src/main/java/com/skatepark/shoveit/backtracking/EightQueenPuzzle.java:24-40 | when the grid records queens that do not attack each other, no two of them share a row or a column, so the scan of `getAvailableCells` sees every queen |
| EightQueenPuzzle.ExtendPlacement | src/main/java/com/skatepark/shoveit/backtracking/EightQueenPuzzle.java:30-32 | a new queen on a cell no placed queen attacks keeps the placement non-attacking |
| EightQueenPuzzle.Move | src/main/java/com/skatepark/shoveit/backtracking/EightQueenPuzzle.java:24-40 | the last queen (number n - 1) succeeds at once with the placement extended by this cell; on false the grid is exactly as before; on true the grid records n pairwise non-attacking queens that extend the placed ones with this cell |
| EightQueenPuzzle.TryCells | src/main/java/com/skatepark/shoveit/backtracking/EightQueenPuzzle.java:31-37 | the candidate loop: if every cell fails the grid is unchanged, and on the first success the grid records a full non-attacking placement; for the last queen the first cell succeeds, so a non-empty list always succeeds |
| EightQueenPuzzle.PlacementIsSolution | src/test/java/skatepark/shoveit/backtracking/EightQueenPuzzleTest.java:37-50 | n recorded non-attacking queens put each of 0 .. n-1 exactly once on the grid, no two on a shared row, column or diagonal |
| EightQueenPuzzle.Calc | src/main/java/com/skatepark/shoveit/backtracking/EightQueenPuzzle.java:9-22 | a negative size raises the array exception, and exactly a negative one: every other size yields a fresh size x size grid that is either a solution or entirely -1, and size 1 yields the solved 1 x 1 grid |
| EightQueenPuzzle.NoSolutionOfSizeTwo | src/test/java/skatepark/shoveit/backtracking/EightQueenPuzzleTest.java:14-20 | no 2 x 2 grid is a solution, so the search on size 2 ends with the all -1 grid |
| EightQueenPuzzle.NoSolutionOfSizeThree | src/test/java/skatepark/shoveit/backtracking/EightQueenPuzzleTest.java:14-20 | no 3 x 3 grid is a solution, so the search on size 3 ends with the all -1 grid |
| SubsetSumCommon.ToList | src/main/java/skatepark/shoveit/backtracking/SubsetSum.java:18 | the list holds each element of the set exactly once |
| SubsetSumCommon.MappedSum | src/main/java/skatepark/shoveit/backtracking/SubsetSum.java:26-29 | adds up the list values at the indices of the subset, which is the sum of their image |
| SubsetSumCommon.IndicesOf | src/main/java/skatepark/shoveit/backtracking/SubsetSum.java:20-37 | every set of listed values is the image of the index set holding its elements, so no subset escapes the index enumeration |
| SubsetSumCommon.IndexSetOfMapped | src/main/java/skatepark/shoveit/backtracking/SubsetSum.java:32-34 | with distinct values the index set is recovered from its image |
| SubsetSumCommon.NoZeroSumOfPositives | src/test/java/skatepark/shoveit/backtracking/SubsetSumTest.java:13-17 | a set of positive numbers such as {1,2,3,4,5} has no non-empty zero-sum subset |
| SubsetSumCommon.ZeroAlone | src/test/java/skatepark/shoveit/backtracking/SubsetSumTest.java:19-29 | the only non-empty zero-sum subset of {0} is {0} |
| SubsetSumAll.ExtendWith | src/main/java/skatepark/shoveit/backtracking/SubsetSum.java:50-60 | one pass of the outer loop adds exactly the sets of size order-1 that do not hold index i, grown by i |
| SubsetSumAll.GenerateCombinations | src/main/java/skatepark/shoveit/backtracking/SubsetSum.java:40-62 | for order 1 exactly the singletons below n; in general exactly the index sets below n with 1 to order elements |
| SubsetSumAll.PartialStep | src/main/java/skatepark/shoveit/backtracking/SubsetSum.java:52-58 | the inner loop over the previous-order sets adds, for each set handled, exactly that set grown by i, and only when it has order-1 elements and lacks i |
| SubsetSumAll.PartialDone | src/main/java/skatepark/shoveit/backtracking/SubsetSum.java:50-60 | once every previous-order set is handled for index i, the sets produced are exactly those of the pass through i + 1 |
| SubsetSumAll.FoundStep | src/main/java/skatepark/shoveit/backtracking/SubsetSum.java:22-35 | handling one more index subset adds a zero-sum subset of the input exactly when that subset's image sums to zero |
| SubsetSumAll.Calc | src/main/java/skatepark/shoveit/backtracking/SubsetSum.java:14-38 | the result holds exactly the non-empty subsets of the input that sum to zero; an empty input gives the empty result |
| SubsetSumFirst.PowBound | src/main/java/com/skatepark/shoveit/backtracking/SubsetSum.java:15 | n indices never outnumber the size bound 2^(n-1) that order n reaches, so level n covers every subset |
| SubsetSumFirst.JoinAll | src/main/java/com/skatepark/shoveit/backtracking/SubsetSum.java:47-57 | one pass of the outer loop adds exactly the unions of its base with every previous-level set |
| SubsetSumFirst.JoinedAll | src/main/java/com/skatepark/shoveit/backtracking/SubsetSum.java:50-56 | the inner loop joins a base with every previous-level set, giving exactly the sets that contain the base and add at most the previous bound of indices |
| SubsetSumFirst.CoveredAll | src/main/java/com/skatepark/shoveit/backtracking/SubsetSum.java:44-58 | the unions of two previous-level sets are exactly the non-empty index sets of at most twice the previous bound |
| SubsetSumFirst.GetSubsets | src/main/java/com/skatepark/shoveit/backtracking/SubsetSum.java:34-59 | for order 1 exactly the singletons below n; in general exactly the non-empty index sets below n with at most 2^(order-1) elements |
| SubsetSumFirst.NoneLeft | src/main/java/com/skatepark/shoveit/backtracking/SubsetSum.java:16-31 | when no candidate's image sums to zero, the input has no non-empty zero-sum subset |
| SubsetSumFirst.Calc | src/main/java/com/skatepark/shoveit/backtracking/SubsetSum.java:12-32 | a found set is a non-empty subset of the input summing to zero; not found exactly when there is none; an empty input never returns |
| SubsetSumFirst.NeedsAll | src/test/java/com/skatepark/shoveit/backtracking/SubsetSumTest.java:33-42 | a non-empty zero-sum subset of {-21,1,2,3,4,5,6} is the whole set |
| SubsetSumFirst.OnlyTheWholeSet | src/test/java/com/skatepark/shoveit/backtracking/SubsetSumTest.java:33-42 | the whole set {-21,1,2,3,4,5,6} is its only non-empty zero-sum subset, so it is what the search returns |
| SortSpec.Swap | src/main/java/com/skatepark/shoveit/InsertionSort.java:17-19 | the exchange through a temporary swaps the two positions and nothing else |
| SortSpec.SwapPermutes | src/main/java/com/skatepark/shoveit/SelectionSort.java:18-19 | an exchange of two positions keeps the multiset of elements |
| SortSpec.SwapStable | src/main/java/com/skatepark/shoveit/sort/BubbleSort.java:13-17 | exchanging neighbours with different keys keeps every group of equal keys in order |
| SortSpec.NeighboursSorted | src/main/java/com/skatepark/shoveit/sort/BubbleSort.java:10-20 | when no neighbouring pair is out of order the sequence is sorted |
| SortSpec.SortedStableUnique | src/main/java/skatepark/shoveit/sort/InsertionSort.java:11 | two sorted sequences with the same groups of equal keys are equal, so a stable sort leaves sorted input unchanged |
| InsertionSort.Sort | src/main/java/com/skatepark/shoveit/InsertionSort.java:13-23 | the array ends sorted, a stable permutation of the input, and unchanged when it was already sorted |
| InsertionSort.Insert | src/main/java/skatepark/shoveit/sort/InsertionSort.java:9-17 | after pass i the prefix up to i is sorted, and the array is a stable permutation of the input |
| InsertionSort.Exchange | src/main/java/skatepark/shoveit/sort/InsertionSort.java:11-15 | exchanging the moving element with a strictly greater left neighbour keeps the pass invariant one position to the left, the permutation and the stability |
| InsertionSort.InsertingStep | src/main/java/com/skatepark/shoveit/InsertionSort.java:16-20 | the pass invariant survives the exchange with a strictly greater neighbour |
| InsertionSort.InsertingDone | src/main/java/com/skatepark/shoveit/InsertionSort.java:16 | the inner loop stops at the front or behind a neighbour that is not greater, and then the prefix is sorted |
| SelectionSort.FirstMinimum | src/main/java/com/skatepark/shoveit/SelectionSort.java:10-17 | returns an index of a minimum of the suffix, and the first one, since every earlier index holds a strictly greater key |
| SelectionSort.Sort | src/main/java/com/skatepark/shoveit/SelectionSort.java:8-21 | the array ends sorted and a permutation of the input; arrays of length 0 or 1 are untouched |
| BubbleSort.NoInversionsSorted | src/main/java/com/skatepark/shoveit/sort/BubbleSort.java:10-20 | a sequence has no inversion exactly when it is sorted |
| BubbleSort.SwapRemovesInversion | src/main/java/com/skatepark/shoveit/sort/BubbleSort.java:13-17 | exchanging an out-of-order neighbouring pair removes exactly one inversion, the termination measure |
| BubbleSort.Pass | src/main/java/com/skatepark/shoveit/sort/BubbleSort.java:11-19 | a pass is a stable permutation; it reports a change exactly when it lowered the inversions, and otherwise leaves the array unchanged with all neighbours in order |
| BubbleSort.Sort | src/main/java/com/skatepark/shoveit/sort/BubbleSort.java:8-21 | the array ends sorted, a stable permutation of the input, and unchanged when it was already sorted |
| MergeSort.MergedLength | src/main/java/com/skatepark/shoveit/MergeSort.java:34 | the merge is exactly as long as the two runs together |
| MergeSort.MergedPermutes | src/main/java/com/skatepark/shoveit/MergeSort.java:38-51 | the merge holds exactly the elements of the two runs |
| MergeSort.MergedSorted | src/main/java/com/skatepark/shoveit/MergeSort.java:38-51 | merging two sorted runs gives a sorted sequence |
| MergeSort.TieTakesRight | src/main/java/com/skatepark/shoveit/MergeSort.java:39-43 | on equal keys the element of the right run goes first, so the sort is not stable |
| MergeSort.MergeInto | src/main/java/com/skatepark/shoveit/MergeSort.java:34-51 | the buffer ends holding the merge of the runs [start..middle] and [middle+1..end] |
| MergeSort.DrainRight | src/main/java/com/skatepark/shoveit/MergeSort.java:46-48 | once the left run is used up, copying the rest of the right run in order completes the buffer, which then holds the whole merge |
| MergeSort.DrainLeft | src/main/java/com/skatepark/shoveit/MergeSort.java:49-51 | once the right run is used up, copying the rest of the left run in order completes the buffer, which then holds the whole merge |
| MergeSort.Merge | src/main/java/com/skatepark/shoveit/MergeSort.java:33-57 | the range [start..end] ends holding the merge of its two runs, and nothing outside the range changes |
| MergeSort.StepFrame | src/main/java/com/skatepark/shoveit/MergeSort.java:27-30 | the two recursive calls and the merge together change nothing outside [start..end] |
| MergeSort.SortRange | src/main/java/com/skatepark/shoveit/MergeSort.java:21-31 | the range ends sorted and a permutation of its contents, nothing outside it changes, and a range with end - start < 1 is left as it was |
| MergeSort.Sort | src/main/java/com/skatepark/shoveit/MergeSort.java:13-15 | the array ends sorted and a permutation of the input, the empty array included |
| SearchTree.BoundsCount | src/main/java/skatepark/shoveit/tree/Node.java:44-53 | a value outside a bound of a subtree is held by none of its nodes, which is why one search path suffices |
| SearchTree.InsertCount | src/main/java/skatepark/shoveit/tree/Node.java:28-42 | adding gains exactly one node holding the value and keeps every other value's count, so the size grows by one |
| SearchTree.InsertOrdered | src/main/java/skatepark/shoveit/tree/Node.java:28-42 | adding keeps the order: left subtree < node <= right subtree |
| SearchTree.LeftmostLeast | src/main/java/skatepark/shoveit/tree/Node.java:61-63 | in an ordered tree the leftmost value is a lower bound of every value |
| SearchTree.RightmostGreatest | src/main/java/skatepark/shoveit/tree/Node.java:65-67 | in an ordered tree the rightmost value is an upper bound of every value |
| SearchTree.Extremes | src/main/java/skatepark/shoveit/tree/Node.java:61-67 | in an ordered tree the leftmost value is the smallest stored value and the rightmost the largest |
| SearchTree.DeleteAbsent | src/main/java/skatepark/shoveit/tree/Node.java:70-81 | removing a value no node holds leaves the tree as it is |
| SearchTree.DeleteCount | src/main/java/skatepark/shoveit/tree/Node.java:82-92 | in an ordered tree removing a present value takes away exactly one node holding it and keeps every other count; an absent value changes nothing |
| SearchTree.DeleteOrdered | src/main/java/skatepark/shoveit/tree/Node.java:82-92 | removing keeps the order, including when the successor replaces a node with two children |
| TreeNode.Node.constructor | src/main/java/com/skatepark/shoveit/tree/Node.java:11-14 | a single node holding the value, a valid one-node tree |
| TreeNode.Node.Add | src/main/java/skatepark/shoveit/tree/Node.java:28-42 | the tree stays valid and its shape becomes the insertion of the value into the old shape |
| TreeNode.Node.AddLeft | src/main/java/skatepark/shoveit/tree/Node.java:29-34 | a value smaller than the node's goes into the left subtree, or becomes a new left leaf; the node's value and right subtree stay, and the tree stays valid |
| TreeNode.Node.AddRight | src/main/java/skatepark/shoveit/tree/Node.java:35-40 | a value at least the node's goes into the right subtree, or becomes a new right leaf; the node's value and left subtree stay, and the tree stays valid |
| TreeNode.Node.Contains | src/main/java/com/skatepark/shoveit/tree/Node.java:44-53 | true exactly when some node holds the value |
| TreeNode.Node.Size | src/main/java/skatepark/shoveit/tree/Node.java:55-59 | the number of nodes, at least one |
| TreeNode.Node.Min | src/main/java/skatepark/shoveit/tree/Node.java:61-63 | the leftmost value, which is stored and no larger than any stored value |
| TreeNode.Node.Max | src/main/java/skatepark/shoveit/tree/Node.java:65-67 | the rightmost value, which is stored and no smaller than any stored value |
| TreeNode.Node.Remove | src/main/java/skatepark/shoveit/tree/Node.java:69-94 | returns whether the value was present; an absent value changes nothing; otherwise the tree stays valid with the shape of the removal, or, for a matched node with at most one child, the parent's link to it is replaced by that child; with no parent that case raises the null dereference |
| TreeNode.Node.RemoveInLeft | src/main/java/skatepark/shoveit/tree/Node.java:70-75 | removing from the left child keeps the tree valid and changes only the left subtree, into its removal |
| TreeNode.Node.RemoveInRight | src/main/java/skatepark/shoveit/tree/Node.java:76-81 | removing from the right child keeps the tree valid and changes only the right subtree, into its removal |
| TreeNode.Node.ReplaceBySuccessor | src/main/java/skatepark/shoveit/tree/Node.java:83-85 | a node with two children takes the minimum of its right subtree, which is removed from there; the shape becomes the removal of the old value |
| TreeNode.SizeScenario | src/test/java/com/skatepark/shoveit/tree/NodeTest.java:9-24 | growing a tree from 10 by 5, 6, 12 and 15 gives sizes 1, 2, 3, 4 and 5 |
| TreeNode.ContainsScenario | src/test/java/com/skatepark/shoveit/tree/NodeTest.java:27-57 | after each step of that growth every value added so far is found and the next one is not |
| BasicConverter.Render | src/main/java/skatepark/shoveit/misc/BasicConverter.java:21-28 | for a non-negative number, a rendering from the sixteen lowercase digits with no leading zero; below 16 it is the single digit at that position of the table (`DigitChar`, equal to the table entry by `DigitTable`) |
| BasicConverter.RenderStep | src/main/java/skatepark/shoveit/misc/BasicConverter.java:21-28 | for a positive q and a digit value k, rendering 16q + k appends the table digit of k to the rendering of q |
| BasicConverter.Dec2Hex | src/main/java/skatepark/shoveit/misc/BasicConverter.java:21-28 | fails with the table index exception exactly for a negative number; otherwise the digits have no leading zero and read back as the number |
| BasicConverter.DigitTable | src/main/java/skatepark/shoveit/misc/BasicConverter.java:7 | each table entry is the digit character of its position, the digit value of each table entry is its position, and the entry at a digit's value is that digit |
| BasicConverter.TableDigits | src/main/java/skatepark/shoveit/misc/BasicConverter.java:7 | a character occurs in the table exactly when it is one of `0`-`9` or `a`-`f` |
| BasicConverter.Hex2Dec | src/main/java/skatepark/shoveit/misc/BasicConverter.java:9-19 | the loop's weighted sum of digit values is the value of the digit string; the empty string gives 0 |
| BasicConverter.WeightedSumValue | src/main/java/skatepark/shoveit/misc/BasicConverter.java:14-17 | summing each digit times 16 to the power of its distance from the end equals the most-significant-first reading |
| BasicConverter.RoundTrip | src/test/java/com/skatepark/shoveit/misc/BasicConverterTest.java:8-14 | reading back the rendering of a non-negative number gives that number |
| BasicConverter.RenderingUnique | src/test/java/com/skatepark/shoveit/misc/BasicConverterTest.java:16-22 | the rendering is the only digit string without a leading zero that denotes the number, so `dec2Hex` returns the standard lowercase hexadecimal rendering |

## Left out

- Grids are `array2<int>`, always rectangular and with rows that share no storage. Java's `int[][]` can be jagged and can alias rows, but every grid the core builds is `new int[rows][columns]` or a row-by-row copy of one, so neither case arises.
- Java `int` arithmetic is not modelled; all integers are mathematical. This covers:
  - overflow of subset sums, of `hex2Dec`'s result and of `size()`;
  - the midpoint `(end + start) / 2` of merge sort, which for arrays near 2^31 elements wraps;
  - step and queen counters.
- BasicConverter.Hex2Dec: `Math.pow` works on doubles, and the compound assignment casts back to `int`, saturating on overflow. Both are modelled as exact integer arithmetic.
- BasicConverter.Hex2Dec: `Character.getNumericValue` is modelled for ASCII only: digits 0-9, letters of either case 10-35, and -1 for every other character. The library also gives values to other Unicode digits and numerals.
- `null` arguments are not modelled, because Dafny's strings, sets and integers are never null. This covers:
  - the `requireNonNull` checks of `hex2Dec` and of the `Node` constructor;
  - `SubsetSum.calc(null)`, which in the all-subsets version returns the empty set.
- Comparators and `Comparable` are replaced by an integer key per element, the total preorder a consistent comparator induces. Not modelled:
  - the null-comparator dispatch in `compare` and `lt`;
  - the `ClassCastException` of non-comparable elements;
  - inconsistent comparators.
- The tree's values are integers, not a generic `Comparable` type.
- The tree's `getLeft`, `getRight` and `getValue` accessors are plain field reads and are not separate members.
- Iteration order of `HashSet`:
  - the first-match subset sum returns whichever zero-sum subset it meets first, and the model only promises that it returns one;
  - the order of the generated index sets and of the list built from the input set is left open.
- Printing is not modelled: `ICheesBoard.print`, the reflection printers, debuggers and field formatters, which write to output streams.
- Whether a knight's tour or a queens solution exists for particular sizes (5 x 5, 8 x 8, 4 queens and so on) is not proved, except for the one-queen board, and neither is running time.
- EightQueenPuzzle.Calc: for sizes above 1 the contract allows the all-empty grid as well as a solution, because the existence of a solution for a given size is not proved.
  - The model proves what a successful search returns, and that a failed search leaves the grid empty.
  - For sizes 2 and 3 it proves that no queens solution exists.
- EightQueenPuzzle.GetAvailableCells: the exact characterisation of its result (every empty unattacked cell) is stated only for grids whose queens pairwise differ in row and column, which holds for every grid the search builds. For other grids `fillRange` also erases queens on the shared lines, and the model then promises only that each returned cell is empty.
- Stack overflow from deep recursion is not modelled. The one exception is the first-match subset sum on an empty set, which never reaches its base case.
- Loops over `HashSet` iterators are modelled as loops over the remaining elements of a set, picked one at a time.
- `Node.remove` when the parent links to neither side of the matched node is not specified: the model, like the code, changes nothing and returns true. It cannot happen with the parent the recursion passes.
