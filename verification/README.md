# Verification of DeathNode's algorithms

DeathNode is a notebook of small C++ and Go programs. This project models the ones that compute
something and proves what they promise. Each source file becomes one or two Dafny modules:

| files | source | kind of model |
|---|---|---|
| `Basics` | | options, stacks and sets shared by the others |
| `Tree`, `InsertionRepairs`, `BinaryTreeNode`, `BalanceTree`, `Traversals` | `数据结构/tree.cpp` | shapes as a datatype, nodes as heap objects whose links are rewritten, stack loops |
| `Expression` | `cpp/test2.cpp`, `cpp/test3.cpp` | syntax trees, their texts and values |
| `StackCalculator`, `StackCalculatorMeaning` | `cpp/test2.cpp` | the two-stack loop, and what it returns on a printed tree |
| `PrecedenceCalculator`, `PrecedenceCalculatorMeaning` | `cpp/test3.cpp` | the table-driven loop over global stacks, and the texts it answers |
| `EvaluatorAgreement`, `Numerals` | both | the two evaluators side by side, and on texts written out in characters |
| `LockSearch` | `算法/openlock.cc`, `算法/Dial.cc` | two breadth-first searches |
| `Queens` | `算法/queen.cc`, `算法/Queen.cc` | three backtracking searches over two board representations |
| `Permutations` | `算法/Permutations.cc` | backtracking over a global list |
| `Palindromes` | `算法/max_parlin_seq.cc`, `算法/max_insert_parlin.cc` | two interval tables |
| `Sorting` | `数据结构/sort.cpp` | quick_sort, heapify and heap_sort, select_sort on a vector, in place |
| `MinWindow` | `算法/min_substr.cc` | a sliding window |
| `Knapsack` | `算法/01Package.cc` | the knapsack table |
| `DoubleList` | `数据结构/double_linked_list.cpp` | a doubly linked list on the heap |
| `FlashSale` | `redis学习/redis_client_Test.go` | interleaved atomic Redis commands, and one client alone |

Code that updates things step by step is a method or a class here, proved against a function or a
predicate on values; the lemmas are about that function or predicate. Integers are unbounded, `double`
is the reals with both zeros, the infinities and the value that is no number, but without rounding, and
printing appends to a sequence that the method returns. A `None`, `Undefined`, `NullLink`, `Diverges`,
`Failed`, `Thrown` or `Crashed` result stands for an exception, undefined behaviour, an endless loop or
an error return of the source.

What was found on the way, each with the exact condition, proved for all inputs:

- `balance_insert` picks its rotation by comparing the new value with the child's value. On a balanced
  search tree this is always the rotation that the depths call for, at the one place where the plain
  insertion is unbalanced. On any search tree it follows a null link exactly if, at one of the nodes it
  passes, the far side is deeper by two or more after the recursive insertion and the far child has no
  inner child. Otherwise it keeps the search order and adds exactly the value.
- `getAnswer` takes a leading minus for a binary operator. No text, well-formed or not, is answered
  unless it holds more numbers than operators, so an expression is answered exactly if it has no
  leading minus and no spaces. The answer is its value over the reals unless it divides by zero. On any
  text a run that does not become undefined never ends exactly if a bracket is unmatched.
- `openlock` returns 0 for the target "0000" even when "0000" is dead; that is the only wrong answer.
  `Solution::openLock` ignores a dead start; its answer is wrong exactly if the start is dead and the
  target could be reached from it otherwise. The two differ exactly if the start is dead and another
  target could be reached from it.
- `knapsack` is right for a capacity, whatever the values are, exactly if there is no weightless item
  behind which other items fill the capacity, and for every capacity exactly if no item is weightless.
- `slide_window` runs off its text exactly for an empty target and a non-empty text. For other targets
  it is right exactly if nothing covers the target or something shorter than the largest `int` does.
- `MSRedis` never oversells exactly if there is at most one client or nothing to sell, and it never
  sells one user two items under exactly the same condition. With k clients the stock never falls below
  1-k and no user is sold more than k items; from every positive stock one run reaches both bounds.

## Model

| member | source | states |
|---|---|---|
| `Tree.RightRotation` | 数据结构/tree.cpp:346-355 | keeps the in-order sequence, the values and the search order |
| `Tree.LeftRotation` | 数据结构/tree.cpp:357-365 | keeps the in-order sequence, the values and the search order |
| `Tree.RightLeftRotation` | 数据结构/tree.cpp:367-372 | keeps the in-order sequence, the values and the search order |
| `Tree.LeftRightRotation` | 数据结构/tree.cpp:374-379 | keeps the in-order sequence, the values and the search order |
| `Tree.Rebalance` | 数据结构/tree.cpp:390-398 | on any tree, whichever guard fires: the in-order sequence and the values are kept, and with them the search order, or a null link is followed; which tree it is, RebalanceLifts and InsertRepairs say |
| `Tree.RebalanceLeft` | 数据结构/tree.cpp:390-394 | after the left side took the value, the rotation chosen by comparing the value with the child's value rebalances, and the depth grows by at most one |
| `Tree.RebalanceRight` | 数据结构/tree.cpp:395-398 | the same for the right side |
| `Tree.BalanceInsert` | 数据结构/tree.cpp:381-400 | on any tree: an inserted value is added to exactly the old ones; on any search tree the result is one again, and the exception is thrown exactly on a duplicate |
| `Tree.InsertBalances` | 数据结构/tree.cpp:381-400 | on a balanced search tree: no null link is followed, the result is balanced and at most one level deeper, and a deeper result is deeper on the side of the value |
| `InsertionRepairs.InsertRepairs` | 数据结构/tree.cpp:381-400 | on a balanced search tree the result is the plain leaf insertion if that is balanced; otherwise its deepest unbalanced subtree is replaced by the single or double rotation that the depths alone call for, and the depth stays |
| `InsertionRepairs.UnbalancedArePassed` | 数据结构/tree.cpp:384-390 | what the leaf insertion unbalances lies on the way to the new leaf |
| `InsertionRepairs.RebalanceLifts` | 数据结构/tree.cpp:390-398 | on any search tree: sides that differ by at most one are left alone; else the child on the deeper side is brought to the root, or its inner child if the value went past it, and a null link is followed if that is missing |
| `Tree.NullLinkIff` | 数据结构/tree.cpp:390-398 | on any search tree: a null link is followed exactly if at some passed node the far side is deeper by two or more after the recursive insertion and the far child has no inner child |
| `Tree.UnbalancedTreeBreaks` | 数据结构/tree.cpp:390-398 | the insertion into a concrete unbalanced search tree follows a null link |
| `Tree.DepthGrowsByOne` | 数据结构/tree.cpp:381-400 | no insertion into any tree, balanced or not, adds more than one level |
| `Tree.InsertAll` | 数据结构/tree.cpp:426-433 | after any run of insertions from the empty root: balanced, a search tree, holding exactly the inserted values |
| `Tree.MinimalSize` | 数据结构/tree.cpp:27-39 | a balanced tree of depth h has at least fib(h+2)-1 nodes |
| `Tree.DepthIsLogarithmic` | 数据结构/tree.cpp:381-445 | after any run one node per distinct value, and the Fibonacci and power-of-two bounds on the depth |
| `Tree.InorderAscends` | 数据结构/tree.cpp:70-76 | the in-order sequence of a search tree is strictly ascending |
| `BinaryTreeNodes.TreeDeepth` | 数据结构/tree.cpp:27-31 | the depth of the heap tree is that of its shape |
| `BinaryTreeNodes.IsBalanced` | 数据结构/tree.cpp:34-39 | the heap test holds exactly if the shape is balanced |
| `BinaryTreeNodes.RightRotationAt` | 数据结构/tree.cpp:346-355 | rewriting the links keeps a tree over the same nodes, with the rotated shape |
| `BinaryTreeNodes.LeftRotationAt` | 数据结构/tree.cpp:357-365 | rewriting the links keeps a tree over the same nodes, with the rotated shape |
| `BinaryTreeNodes.RightLeftRotationAt` | 数据结构/tree.cpp:367-372 | the same for the double rotation |
| `BinaryTreeNodes.LeftRightRotationAt` | 数据结构/tree.cpp:374-379 | the same for the double rotation |
| `BinaryTreeNodes.RebalanceAt` | 数据结构/tree.cpp:390-399 | the guards on the heap select what the guards on the shape select, and follow a null link exactly when they do |
| `BinaryTreeNodes.InsertBelow` | 数据结构/tree.cpp:384-389 | throws exactly when the insertion into the shape does, and then no node has been written; otherwise one subtree is replaced, one fresh node is added and none is lost |
| `BinaryTreeNodes.BalanceInsertAt` | 数据结构/tree.cpp:381-400 | on any heap tree: returns, throws or follows a null link exactly when the insertion into the shape does; no node is written before a throw; the new heap tree has the new shape over the old nodes and one fresh one |
| `BalanceTrees.BalanceTree.InsertNode` | 数据结构/tree.cpp:428-433 | the invariant over all calls so far; a call that throws leaves root and nodes alone; one that succeeds keeps every node and prints the preorder |
| `Traversals.PreorderStack` | 数据结构/tree.cpp:52-67 | terminates and prints the recursive preorder |
| `Traversals.InorderStack` | 数据结构/tree.cpp:78-93 | terminates and prints the recursive inorder |
| `Traversals.PostorderStack` | 数据结构/tree.cpp:115-146 | terminates and prints the recursive postorder |
| `Traversals.Unsaved` | 数据结构/tree.cpp:133-140 | a round of the marking loop prints the parent whose right subtree is done and keeps the three stacks aligned with the path |
| `Traversals.MarkedOnce` | 数据结构/tree.cpp:127-138 | a finished node is marked exactly if it is a right child; its mark is the last one and removing it removes no other |
| `Expression.DivisionTruncates` | cpp/test2.cpp:213-215 | division fails exactly for the divisor 0; otherwise product and remainder are those of rounding towards zero, for all signs |
| `StackCalculator.OpPriority` | cpp/test2.cpp:186-194 | throws exactly unless both are operators; true exactly for a multiplicative one against an additive one |
| `StackCalculator.PushOperator` | cpp/test2.cpp:258-273 | the operator branch, with its exceptions |
| `StackCalculator.FindClosing` | cpp/test2.cpp:243-251 | the position of the matching bracket, or running off the text |
| `StackCalculator.CalculateInput` | cpp/test2.cpp:229-283 | the loops compute the function on which the meaning is proved, on every text |
| `StackCalculatorMeaning.ClosingExpr` | cpp/test2.cpp:244-252 | the bracket search skips every balanced text |
| `StackCalculatorMeaning.AtMulOp` | cpp/test2.cpp:186-194 | a multiplicative operator first applies the multiplicative one that waits, and only that: left associativity and precedence |
| `StackCalculatorMeaning.UnwindDrains` | cpp/test2.cpp:265-272 | an additive operator applies everything that waits |
| `StackCalculatorMeaning.DrainExpr` | cpp/test2.cpp:276-282 | applying everything that waits gives the value of the expression |
| `StackCalculatorMeaning.ScanExpr` | cpp/test2.cpp:234-274 | the stacks after reading an expression, with any text behind it |
| `StackCalculatorMeaning.CalcText` | cpp/test2.cpp:229-283 | on the text of every expression, with leading minuses, brackets and spaces before tokens, the answer is its value, and the evaluation fails exactly on a division by zero |
| `StackCalculatorMeaning.AnsweredTextIsClean` | cpp/test2.cpp:229-283 | on every text: an answer means that every character is a digit, an operator, a space or a bracket |
| `StackCalculatorMeaning.TrailingOperator` | cpp/test2.cpp:200-205 | an additive operator behind an expression takes the value as its right operand and 0 as its left one |
| `StackCalculatorMeaning.TrailingSpaces` | cpp/test2.cpp:236-241 | spaces behind an expression lose its last operand |
| `PrecedenceCalculator.Evaluator.GetAnswer` | cpp/test3.cpp:76-124 | the loop over the global stacks and the stream computes the function on which the meaning is proved, on every text |
| `PrecedenceCalculatorMeaning.Conservation` | cpp/test3.cpp:81-123 | on every text the values left are the numbers less the operators, so an answer needs more numbers than operators |
| `PrecedenceCalculatorMeaning.DivergesIff` | cpp/test3.cpp:81-122 | for every text and any arithmetic: unless the run becomes undefined, it meets a '0' entry and never ends exactly if a bracket before the closing '#' is unmatched |
| `PrecedenceCalculatorMeaning.AnsweredIsClean` | cpp/test3.cpp:81-123 | on every text: an answer means that only digits, operators and brackets stand before the closing '#' |
| `PrecedenceCalculatorMeaning.EndExpr` | cpp/test3.cpp:112-119 | a closing operator reduces what waits to the value of the expression |
| `PrecedenceCalculatorMeaning.RunExpr` | cpp/test3.cpp:81-122 | the stacks after reading an expression, with any text behind it |
| `PrecedenceCalculatorMeaning.AnswersPlainText` | cpp/test3.cpp:76-124 | for any arithmetic on the values: an expression without leading minus and spaces is answered with its value, and the stacks keep nothing else; with either, the run becomes undefined; so no expression runs forever |
| `PrecedenceCalculatorMeaning.UnmatchedDiverges` | cpp/test3.cpp:43-52 | an expression with a closing bracket too many behind it, or an opening one in front, makes the loop run forever |
| `PrecedenceCalculatorMeaning.ExprExact` | cpp/test3.cpp:59-74 | if nothing is divided by zero, the value computed with infinities and signed zeros is that over the reals |
| `PrecedenceCalculatorMeaning.SpecialValues` | cpp/test3.cpp:59-74 | sums, products and ratios with zeros, infinities and the value that is no number, as in sections 6 and 7 of IEEE 754 |
| `PrecedenceCalculatorMeaning.SignsMultiply` | cpp/test3.cpp:59-74 | the sign of every product and ratio, zero or infinite ones included |
| `PrecedenceCalculatorMeaning.AnswersValue` | cpp/test3.cpp:76-124 | an expression is answered exactly if it has no leading minus and no spaces, and unless it divides by zero the answer is its value over the reals |
| `PrecedenceCalculatorMeaning.ExprSame` | cpp/test3.cpp:59-74 | if every quotient is whole the real value is the integer value |
| `EvaluatorAgreement.EvaluatorsAgree` | cpp/test3.cpp:76-124 | if every quotient is whole, getAnswer and calculate_input give the same number exactly on the texts without leading minus and spaces |
| `EvaluatorAgreement.EvaluatorsAgreeWithoutDivision` | cpp/test3.cpp:76-124 | in particular on all texts without division |
| `Numerals.NumberText` | cpp/test3.cpp:85-100 | in both evaluators the decimal numeral of every number is answered with that number |
| `Numerals.MinusText` | cpp/test2.cpp:256-258 | calculate_input answers a numeral behind a minus with the negated number |
| `Numerals.SumText` | cpp/test2.cpp:265-272 | in both evaluators, for all numerals: sums and differences, the left one first |
| `Numerals.ProductText` | cpp/test2.cpp:186-194 | in both evaluators, for all numerals: products before sums, brackets before products |
| `Numerals.QuotientText` | cpp/test2.cpp:213-215 | for all numerals: the truncated quotient in one evaluator, the real one in the other; none for the divisor 0 in the first |
| `Numerals.NegativeQuotientText` | cpp/test2.cpp:213-215 | calculate_input truncates towards zero for a negative dividend too |
| `Numerals.ZeroDivisorText` | cpp/test3.cpp:69-70 | getAnswer answers a numeral over 0 with an infinity, and 0 over 0 with no number |
| `LockSearch.Neighbours` | 算法/openlock.cc:9-23 | plus_one and minus_one give exactly the codes one cyclic turn away |
| `LockSearch.OfferNeighbours` | 算法/openlock.cc:46-57 | queues and marks exactly the neighbours not seen before |
| `LockSearch.Expand` | 算法/openlock.cc:40-57 | expanding a live code keeps the level invariant |
| `LockSearch.NextLevel` | 算法/openlock.cc:37-60 | an emptied level leaves exactly the next distance in the queue |
| `LockSearch.Found` | 算法/openlock.cc:44-45 | the level at which the target is met is the shortest distance |
| `LockSearch.Exhausted` | 算法/openlock.cc:61 | an empty queue means that no walk reaches the target |
| `LockSearch.Openlock` | 算法/openlock.cc:25-62 | for all dead ends and every target but "0000": the length of a shortest walk from "0000" that avoids the dead ends, or -1 exactly if there is none |
| `LockSearch.DialOpenLock` | 算法/Dial.cc:11-45 | for all dead ends and every target: the same, with the start exempt from the dead ends |
| `LockSearch.OpenlockIsRight` | 算法/openlock.cc:26-27 | the answer is the shortest distance exactly unless the target is a dead start |
| `LockSearch.DialIsRight` | 算法/Dial.cc:24-27 | the answer is the shortest distance exactly unless the start is dead and the target could be reached from it otherwise |
| `LockSearch.SearchesAgree` | 算法/Dial.cc:24-27 | both searches agree exactly unless the start is dead and another target could be reached from it otherwise |
| `LockSearch.SearchesDiffer` | 算法/Dial.cc:24-27 | with only the start dead they answer -1 and 1 for "1000" |
| `Queens.QueenSearch.IsPosValid` | 算法/queen.cc:9-34 | true exactly if no queen above attacks the position |
| `Queens.QueenSearch.Backtrace` | 算法/queen.cc:37-50 | appends every extension of the board in order and restores the board |
| `Queens.QueenSearch.Search` | 算法/queen.cc:52-55 | for every size: exactly the boards with n queens of which none attacks another, each once, ordered by the queens row by row, and an empty board again |
| `Queens.QueenStrings.IsValid` | 算法/Queen.cc:14-33 | true exactly if no queen above attacks the position; the read one past a row meets the terminator |
| `Queens.QueenStrings.SolutionIsValid` | 算法/Queen.cc:85-105 | true exactly if no queen above attacks the position |
| `Queens.QueenStrings.BackTrace` | 算法/Queen.cc:36-49 | appends every extension of the board in order and restores the board |
| `Queens.QueenStrings.Search` | 算法/Queen.cc:51-54 | the same for the string boards |
| `Queens.QueenStrings.Backtracking` | 算法/Queen.cc:72-84 | appends every extension of the board in order and restores the board |
| `Queens.QueenStrings.SolveNQueens` | 算法/Queen.cc:107-112 | exactly the boards with n queens of which none attacks another, each once, in the same order |
| `Queens.ExtensionsAreAll` | 算法/queen.cc:43-49 | the search meets exactly the peaceful placements that extend what is on the board |
| `Queens.ExtensionsAscend` | 算法/queen.cc:43-49 | in strictly ascending order: at the first row that differs, the earlier one has its queen further to the left |
| `Queens.ExtensionsDiffer` | 算法/queen.cc:43-49 | and meets none of them twice |
| `Queens.PlacementIsSolution` | 算法/queen.cc:36-41 | a peaceful placement, drawn on a board, is a solution counted in queens and attacks |
| `Queens.SolutionIsPlacement` | 算法/queen.cc:36-41 | every board with n queens of which none attacks another is a drawn placement |
| `Queens.SearchIsComplete` | 算法/queen.cc:36-55 | from an empty board the results are all solutions, nothing else, each once and in order, in both representations |
| `Permutations.Permuter.Permutation` | 算法/Permutations.cc:17-29 | appends the completions of the partial permutation in order and restores it |
| `Permutations.CompletionsAreAll` | 算法/Permutations.cc:22-28 | the completions are exactly the extensions by elements that are new where they stand |
| `Permutations.CompletionsAscend` | 算法/Permutations.cc:22-28 | the completions come in strictly ascending lexicographic order of the indices |
| `Permutations.PermutationsAreComplete` | 算法/Permutations.cc:17-29 | distinct elements: every permutation exactly once, in that order; a repeated element: nothing |
| `Palindromes.MaxParlinSeq` | 算法/max_parlin_seq.cc:18-35 | the length of a longest palindromic subsequence: one exists and none is longer |
| `Palindromes.MaxInsertParlin` | 算法/max_insert_parlin.cc:6-20 | the least number of insertions that make a palindrome: so many suffice and fewer do not |
| `Palindromes.NoneLonger` | 算法/max_parlin_seq.cc:25-33 | no palindromic subsequence of an interval is longer than its entry |
| `Palindromes.LongestExists` | 算法/max_parlin_seq.cc:25-33 | one of that length exists |
| `Palindromes.NoneFewer` | 算法/max_insert_parlin.cc:10-18 | no palindrome that contains an interval's text as a subsequence is longer by less than its entry |
| `Palindromes.FewestExists` | 算法/max_insert_parlin.cc:10-18 | one longer by exactly that exists |
| `Palindromes.Dual` | 算法/max_insert_parlin.cc:10-18 | the two tables add up to the length of the interval |
| `Palindromes.TablesAreOptimal` | 算法/max_parlin_seq.cc:18-35 | for a whole text: both answers are optimal and add up to its length |
| `Sorting.MoveHole` | 数据结构/sort.cpp:66-71 | with the pivot held aside, copying over the hole moves the hole and keeps the multiset |
| `Sorting.FromRight` | 数据结构/sort.cpp:64-67 | the first half of a round, with the hole at left before and at right after |
| `Sorting.FromLeft` | 数据结构/sort.cpp:68-71 | the second half, with the hole moving back, and progress in every round |
| `Sorting.Partition` | 数据结构/sort.cpp:60-74 | partitions around the element that stood first, rearranging only the range |
| `Sorting.QuickSort` | 数据结构/sort.cpp:57-77 | sorts the range ascending, keeps the multiset and touches nothing outside |
| `Sorting.SiftStep` | 数据结构/sort.cpp:87-90 | swap and recursive call together make the whole subtree a heap |
| `Sorting.Heapify` | 数据结构/sort.cpp:79-91 | if both child subtrees are heaps the subtree becomes one; nothing outside it changes |
| `Sorting.HeapSort` | 数据结构/sort.cpp:93-102 | an ascending permutation of any input |
| `Sorting.RootIsLargest` | 数据结构/sort.cpp:98-101 | the root of a heap bounds every element |
| `Sorting.SelectStep` | 数据结构/sort.cpp:143-144 | one comparison keeps the invariant of the all-pairs exchange |
| `Sorting.SelectAt` | 数据结构/sort.cpp:142-145 | one pass brings the least element of the whole vector to the end of a descending prefix |
| `Sorting.SelectSort` | 数据结构/sort.cpp:140-147 | a non-increasing permutation of any input |
| `MinWindow.CountTarget` | 算法/min_substr.cc:8-10 | the need map counts the target |
| `MinWindow.AddRight` | 算法/min_substr.cc:17-22 | the counters follow the window as it grows |
| `MinWindow.DropLeft` | 算法/min_substr.cc:25-29 | the counters follow the window as it shrinks; the branch is taken exactly if it stops covering, and never for an empty target |
| `MinWindow.CountingSuffices` | 算法/min_substr.cc:24 | the number of satisfied characters tells whether the window covers |
| `MinWindow.KeepBetter` | 算法/min_substr.cc:28-37 | recording keeps the best window found so far best |
| `MinWindow.ShrinkWhileFull` | 算法/min_substr.cc:24-38 | the inner loop ends with a window that does not cover and has missed nothing, and runs off the text exactly for an empty target |
| `MinWindow.SlideWindow` | 算法/min_substr.cc:7-41 | for every source and target: runs off the text exactly for an empty target and a non-empty source; otherwise, for every source shorter than 0x7fffffff, the leftmost of the shortest covering substrings, or the empty string exactly if there is none; for longer ones the same exactly if nothing covers or something shorter than that does |
| `Knapsack.Knapsack` | 算法/01Package.cc:32-44 | for all weights, negative ones included: reads outside a row exactly if a weight is negative and there is room; otherwise a value attained by items that fit and not exceeded by any others that fit, if no weightless item is missed, and always the same for the choices the table considers |
| `Knapsack.EntryIsBestConsidered` | 算法/01Package.cc:34-42 | for all weights, zero included: the entry is the best value among the choices the table considers |
| `Knapsack.EntryIsBest` | 算法/01Package.cc:34-42 | the best value of a choice that fits, if no weightless item lies before items that fill the room |
| `Knapsack.RightIff` | 算法/01Package.cc:33-42 | for one capacity: right for all values exactly if there is no weightless item behind which other items fill the capacity |
| `Knapsack.RightIffNoWeightlessItem` | 算法/01Package.cc:33-42 | right for every capacity and all values exactly if no item is weightless |
| `DoubleLists.DoubleList.AddToHead` | 数据结构/double_linked_list.cpp:14-27 | the deque operation, and both printed walks |
| `DoubleLists.DoubleList.DelFromHead` | 数据结构/double_linked_list.cpp:29-45 | the deque operation, and both printed walks |
| `DoubleLists.DoubleList.AddToTail` | 数据结构/double_linked_list.cpp:47-60 | the deque operation, and both printed walks |
| `DoubleLists.DoubleList.DelFromTail` | 数据结构/double_linked_list.cpp:62-78 | the deque operation, and both printed walks |
| `DoubleLists.DoubleList.LinkHead` | 数据结构/double_linked_list.cpp:16-24 | the links stay consistent in both directions, with head null exactly if tail is |
| `DoubleLists.DoubleList.UnlinkHead` | 数据结构/double_linked_list.cpp:32-42 | the links stay consistent in both directions |
| `DoubleLists.DoubleList.LinkTail` | 数据结构/double_linked_list.cpp:49-57 | the links stay consistent in both directions |
| `DoubleLists.DoubleList.UnlinkTail` | 数据结构/double_linked_list.cpp:65-75 | the links stay consistent in both directions |
| `DoubleLists.DoubleList.DumpVor` | 数据结构/double_linked_list.cpp:80-89 | the forward walk ends and gives the contents |
| `DoubleLists.DoubleList.DumpBak` | 数据结构/double_linked_list.cpp:91-100 | the backward walk ends and gives the reverse |
| `DoubleLists.MirroredRun` | 数据结构/double_linked_list.cpp:12-105 | in every run, exchanging head and tail in all updates reverses the contents |
| `FlashSale.Server.MSRedis` | redis学习/redis_client_Test.go:33-86 | one client alone, for every combination of lost requests and lost replies: which commands are sent, that the call fails exactly if a sent command fails, and the stock, members and sales it leaves; its commands are steps of the protocol |
| `FlashSale.BoundedStep` | redis学习/redis_client_Test.go:46-83 | every command of every client keeps stock and sales balanced and the oversell bound |
| `FlashSale.OversellIsBounded` | redis学习/redis_client_Test.go:46-83 | in every interleaving of k clients, with errors anywhere: the stock taken is the number of executed Decr commands, and the stock never falls below 1-k |
| `FlashSale.OneUserIsBounded` | redis学习/redis_client_Test.go:60-83 | in every interleaving of k clients no user is sold more than k items |
| `FlashSale.NamedAt` | redis学习/redis_client_Test.go:34-37 | in every run nothing is sold to the empty user, who is never added either |
| `FlashSale.OversellHappens` | redis学习/redis_client_Test.go:46-83 | from every positive stock: after all items but one are sold, k clients can sell that one k times, to any k users, the same one included, and the stock reaches 1-k |
| `FlashSale.BoundsAreReached` | redis学习/redis_client_Test.go:46-83 | for every positive stock, every k and every user one run ends with the stock at 1-k and that user sold k items |
| `FlashSale.NeverOversoldIff` | redis学习/redis_client_Test.go:46-83 | no run of k clients oversells exactly if k is at most 1 or the stock is 0 |
| `FlashSale.NeverTwiceIff` | redis学习/redis_client_Test.go:60-83 | no run of k clients sells one user two items exactly if k is at most 1 or the stock is 0 |
| `FlashSale.NobodyBuysTwice` | redis学习/redis_client_Test.go:60-83 | for any number of clients: in every run in which no user is served by two clients at once, no user is sold two items |

## Left out

- PrecedenceCalculator.Evaluator.GetAnswer: the end of the stream before '#' counts as undefined at once; the source first goes on with the end-of-file value, which it takes for an operator and then cannot apply.
- StackCalculatorMeaning.CalcText: spaces at the end of a text or of a group, empty groups, and a minus after another operator are outside the grammar; the model of the loops still follows the code on them.
- Palindromes.MaxParlinSeq: the empty text, where the source reads an entry of an empty table.
- Palindromes.MaxInsertParlin: the empty text, for the same reason.
- Sockets, BPF, DPDK, D-Bus, timers, signals, contexts, threads, language demonstrations, assembly and the notes in Markdown: input and output, library calls or fragments.
- Machine integer overflow, rounding of `double`, allocation failure, `delete` and the dangling pointers it leaves.
- Trace output inside the algorithms: the rotation messages, and the steps printed by op_on_stack and at parentheses.
- In the rotations the two link writes are independent and are made in the order in which each node is complete after its own write.
- `balance_delete`, which is unfinished, and the class BinaryTree, whose search, minimum and maximum are easier than the balanced tree.
- The array versions of select_sort, bubble_sort, insert_sort and shell_sort, and the function package in `算法/01Package.cc`: easier than, or the same as, what is modelled.
- `数据结构/rbtree.c`, `数据结构/skip_linked_list.cpp`, `数据结构/ring_linked_list.cpp`, `数据结构/singel_linked_list.cpp`, `数据结构/binary_search.cpp`, `算法/coin.cc`, `算法/max_comm_seq.cc`, `算法/max_sum_subvec.cc`, `算法/not_repeated_substr.cc` and `算法/longest_pal_str.cc`: their text does not compute what they are named for.
- `算法/permutation.cc` and `算法/xor_substr.cc`: their window test is right only for targets without repeated letters.
- Redis itself: a missing stock key, expiry and replication; every command is one atomic step on a stock number and a user set.
