# dsa-go, modelled in Dafny

This project models bcdxn/dsa-go. That Go repository holds data-structure and algorithm exercises, and its core is modelled here:

- **Trees.** An AVL tree that keeps a cached height in each node. A plain binary search tree.
- **Linked structures.** A doubly linked list, with a queue and a stack built on it. A singly linked list.
- **Array and table structures.** A max-heap with a 1-indexed, doubling array. The djb2 string hash and a chained hash table.
- **Simple-path counting** in a grid graph and in an adjacency-list graph.
- **Sorting and searching.** Bubble, insertion, merge, quick and counting sort, and binary search.
- **Dynamic-programming exercises.** Fibonacci and lattice-path counting.

There is one Dafny module per Go file:

- Code that updates state is imperative Dafny. Arrays are sorted and written in place. The lists are pointer-linked classes, with a ghost `nodes` sequence and a `Repr` footprint. The heap, hash table and tree objects are classes whose methods change their fields.
- Code that only computes is written as functions. Examples are the recursive Fibonacci and path counts, the AVL and BST node recursions (on tree values), the hash, and the merge of two lists.
- Each imperative method is proved against a specification function or a predicate. The promised properties are lemmas about those functions.

Shared pieces:

- `Outcome` holds the `Result`/`Status` datatypes and the Go error messages as constants.
- `SortSpec` holds `Sorted` and the segment-permutation predicate.
- `Sequences` holds reversal and first-occurrence removal.
- `PathSets` holds the visited-set class and path-set counting lemmas.

The Go test files appear as scenario lemmas and methods that replay each test's steps.

## Model

| member | source | states |
|---|---|---|
| SortSpec.AdjacentSortedIsSorted | sort/bubble.go:19-31 | a slice whose neighbours are in order is sorted; this is the fact behind stopping bubble sort after a pass with no swap |
| Sequences.Rev | ds/linkedlist.go:72-86 | the reversal has the same length and puts the element at distance m from the end at position m |
| Sequences.RevRev | ds/linkedlist.go:72-86 | reversing twice gives the original sequence |
| Sequences.RevValues | ds/linkedlist.go:72-86 | reversal keeps the multiset of elements |
| Sequences.RemoveFirst | ds/list.go:139-180 | the list without the first occurrence of x is one element shorter exactly when x occurs |
| Sequences.RemoveFirstValues | ds/list.go:139-180 | removing the first occurrence takes exactly one copy of x out of the multiset, and shortens the list by one exactly when x occurs |
| Sequences.RemoveFirstAbsent | ds/linkedlist.go:43-69 | removing an absent element leaves the list as it is |
| Sequences.RemoveFirstAt | ds/linkedlist.go:43-69 | when x first occurs at index i, removal is the list without index i |
| BinarySearch.Binary | search/binary.go:8-29 | found means the returned element equals the target and occurs in the list; not found returns the zero value; a sorted list that holds the target is always found |
| Bubble.Pass | sort/bubble.go:19-31 | one pass keeps the multiset; a pass without a swap changes nothing and means neighbours are in order; each pass places one more maximum at the end |
| Bubble.InPlaceBubble | sort/bubble.go:36-51 | sorts the given array in place and returns that same array, as a permutation of its old contents |
| Bubble.Bubble | sort/bubble.go:15-34 | returns a fresh sorted array holding a permutation of the input, and leaves the input alone |
| Insertion.SinkStep | sort/insertion.go:20-26 | one adjacent swap moves the element being inserted one place left and keeps the multiset |
| Insertion.SinkDone | sort/insertion.go:20-26 | once the inserted element meets a smaller or equal neighbour, the prefix [0..i] is sorted |
| Insertion.Sink | sort/insertion.go:42-48 | after outer iteration i, the prefix [0..i] is sorted, the multiset is kept, and cells after i are untouched |
| Insertion.InPlaceInsertion | sort/insertion.go:41-51 | sorts the given array in place and returns it, as a permutation of its old contents |
| Insertion.Insertion | sort/insertion.go:15-29 | returns a fresh sorted permutation and does not touch the input |
| CountingSort.RepeatCount | sort/counting.go:52-58 | writing v k times adds exactly k copies of v |
| CountingSort.FillFromCount | sort/counting.go:52-58 | the list rewritten from the buckets holds each value as often as its bucket says |
| CountingSort.FillFromSorted | sort/counting.go:52-58 | the rewritten list is ascending |
| CountingSort.CountingSorts | sort/counting.go:44-61 | when every element is below the list length, the output is sorted, has the input's multiset and has the input's length |
| CountingSort.Tally | sort/counting.go:46-50 | the counting loop fills the bucket array with the occurrence counts |
| CountingSort.WriteCopies | sort/counting.go:54-57 | the inner loop writes `count` copies of `elem` right after the cells already written, and keeps those |
| CountingSort.Rewrite | sort/counting.go:52-58 | the nested loops overwrite the list with each value repeated as often as its bucket says |
| CountingSort.CountingHelper | sort/counting.go:44-61 | `counting` sorts the array in place and keeps its multiset, if every element is below the length |
| CountingSort.Counting | sort/counting.go:17-24 | returns a fresh sorted permutation and leaves the argument unchanged |
| CountingSort.InPlaceCounting | sort/counting.go:40-42 | overwrites the argument with its sorted permutation and returns it |
| QuickSort.Partition | sort/quick.go:35-59 | with any pivot index in [low, high], returns j in [low, high]; cells in [low, j) are below list[j] and cells in (j, high] are at least list[j]; only [low, high] is permuted |
| QuickSort.MovePivot | sort/quick.go:37-42 | the value at a pivot index chosen anywhere in [low, high] is moved to index high; only [low, high] is permuted |
| QuickSort.Gather | sort/quick.go:44-51 | the scan leaves every value below the pivot in [low, j) and every other value in [j, high), the pivot still at high, only [low, high] permuted |
| QuickSort.PartStep | sort/quick.go:46-51 | each loop step keeps smaller values before j and the rest between j and i |
| QuickSort.QuickHelper | sort/quick.go:62-72 | sorts the segment [low, high] in place as a permutation of it and leaves the other cells alone; an empty or one-cell segment is left as it is |
| QuickSort.Quick | sort/quick.go:22-30 | returns a fresh sorted permutation without altering the input |
| MergeSort.Merged | sort/merge.go:66-98 | the merge of two lists is as long as both together |
| MergeSort.MergedValues | sort/merge.go:66-98 | the merge of two lists holds their multiset union, and its length is the sum of theirs |
| MergeSort.MergedSorted | sort/merge.go:66-98 | merging two sorted lists gives a sorted list |
| MergeSort.MergedPrefersLeftOnTies | sort/merge.go:75-81 | on equal heads the left list's element comes first |
| MergeSort.ProgressStep | sort/merge.go:74-83 | writing the smaller head, the left one on ties, keeps the output a prefix of the merge |
| MergeSort.ProgressDone | sort/merge.go:84-95 | once one list is used up, copying the rest of both completes the merge |
| MergeSort.MergeHeads | sort/merge.go:74-83 | the first loop writes a prefix of the merge, stops only when one list is used up, and has used as many values of each list as it wrote |
| MergeSort.CopyRemaining | sort/merge.go:84-95 | a copy loop appends the rest of one list after what was written, and keeps the cells before it |
| MergeSort.MergeSortedLists | sort/merge.go:66-98 | the three-index loops produce exactly the merge of the two lists |
| MergeSort.MergeHelper | sort/merge.go:49-64 | returns a sorted permutation of its input; lists shorter than 2 come back as they are |
| MergeSort.Merge | sort/merge.go:20-26 | returns a sorted permutation and leaves the input unchanged |
| MergeSort.InPlaceMerge | sort/merge.go:45-47 | returns a new sorted permutation; the argument is not written |
| Fibonacci.BruteForce | a/fibonacci/fibonacci.go:4-10 | the result is negative exactly when n is (n itself is returned for n <= 1) |
| Fibonacci.BruteForcePositive | a/fibonacci/fibonacci.go:4-10 | fib(n) is at least 1 for n >= 1 |
| Fibonacci.BruteForceMonotone | a/fibonacci/fibonacci.go:4-10 | fib(n-1) <= fib(n) for n >= 1 |
| Fibonacci.BruteForceExamples | a/fibonacci/fibonacci_test.go:10-24 | fib(0)=0, fib(1)=1, fib(5)=5, fib(7)=13, fib(10)=55 |
| Fibonacci.Memoize | a/fibonacci/fibonacci.go:18-29 | returns BruteForce(n), and every nonzero cache entry still holds the right Fibonacci number |
| Fibonacci.Memoization | a/fibonacci/fibonacci.go:13-16 | equals BruteForce(n) |
| Fibonacci.BottomUp | a/fibonacci/fibonacci.go:31-47 | the two-cell loop equals BruteForce(n) |
| CountPaths.Paths | a/countpaths/countpaths.go:26-40 | the recurrence `topDown` memoises finds a path only towards a destination inside the grid, below and right of the start |
| CountPaths.BruteForce | a/countpaths/countpaths.go:6-16 | never counts fewer paths than the recurrence; the column is never an index, so a negative column is in bounds |
| CountPaths.PathsOnDestinationLine | a/countpaths/countpaths.go:26-40 | on the destination's row or column at most one path is left |
| CountPaths.BruteForceWalksNegativeColumns | a/countpaths/countpaths.go:7-16 | from column -2 on two one-cell rows towards (1, 5) the brute force counts three paths |
| CountPaths.PathsIgnoresCells | a/countpaths/countpaths.go:26-40 | the count depends only on the grid's shape, not on its cell values |
| CountPaths.PathsPastDestination | a/countpaths/countpaths.go:26-40 | starting below or right of the destination gives 0 |
| CountPaths.PathsIsBinomial | a/countpaths/countpaths.go:26-40 | inside a rectangular grid the count is the binomial coefficient C((dr-r)+(dc-c), dr-r) |
| CountPaths.BruteForceAgreesInsideRectangle | a/countpaths/countpaths.go:6-16 | from a cell up-left of the destination, the brute-force count equals the memoised recurrence |
| CountPaths.BruteForceDivergesRightOfDestination | a/countpaths/countpaths.go:11 | from (0,1) to (0,0) the brute force answers 1, while the recurrence answers 0 |
| CountPaths.TopDownExamples | a/countpaths/countpaths_test.go:25-38 | on a 4x4 grid there are 2, 6 and 20 paths from (2,2), (1,1) and (0,0) to (3,3) |
| CountPaths.TopDownRec | a/countpaths/countpaths.go:26-40 | returns the lattice recurrence f(r,c) = f(r+1,c) + f(r,c+1), and keeps every filled cache cell correct |
| CountPaths.MaxWidth | a/countpaths/countpaths.go:19-22 | the cache is wide enough for every row of the grid |
| CountPaths.TopDown | a/countpaths/countpaths.go:18-24 | equals the lattice recurrence |
| Queues.Queue.constructor | ds/queue.go:11-15 | a new queue is empty |
| Queues.Queue.Depth | ds/queue.go:18-20 | the depth is the number of queued elements |
| Queues.Queue.Enqueue | ds/queue.go:23-25 | appends at the tail |
| Queues.Queue.Dequeue | ds/queue.go:28-30 | an empty queue gives the empty-list error; otherwise returns the front and drops it |
| Queues.FirstInFirstOut | ds/queue_test.go:48-73 | two enqueued values come out in order, then the error |
| Stacks.Stack.constructor | ds/stack.go:11-18 | a new stack is empty |
| Stacks.Stack.Height | ds/stack.go:20-22 | the height is the number of stacked elements |
| Stacks.Stack.Push | ds/stack.go:25-27 | puts the element on top |
| Stacks.Stack.Pop | ds/stack.go:30-32 | an empty stack gives the empty-list error; otherwise returns the top and drops it |
| Stacks.LastInFirstOut | ds/stack_test.go:48-73 | two pushed values come out in reverse order, then the error |
| DoublyLinkedList.ListNode.constructor | ds/list.go:16-22 | a new node holds the element and has no links |
| DoublyLinkedList.List.constructor | ds/list.go:32-38 | a new list is empty, with nil head and tail |
| DoublyLinkedList.List.Len | ds/list.go:41-43 | len is the number of nodes |
| DoublyLinkedList.List.AddHead | ds/list.go:46-62 | prepends, keeps Next/Prev consistent, and a one-element list has Tail == Head |
| DoublyLinkedList.List.AddTail | ds/list.go:65-81 | appends, keeps Next/Prev consistent, and a one-element list has Head == Tail |
| DoublyLinkedList.List.RemoveHead | ds/list.go:84-108 | an empty list gives the error; otherwise returns the first element and drops it; both ends become nil when the list empties |
| DoublyLinkedList.List.RemoveTail | ds/list.go:111-135 | an empty list gives the error; otherwise returns the last element and drops it; both ends become nil when the list empties |
| DoublyLinkedList.List.UnlinkOnly | ds/list.go:147-150 | unlinking the only node leaves an empty list |
| DoublyLinkedList.List.UnlinkHead | ds/list.go:152-155 | unlinking the head drops the first element and keeps the list consistent |
| DoublyLinkedList.List.UnlinkTail | ds/list.go:156-159 | unlinking the tail drops the last element and keeps the list consistent |
| DoublyLinkedList.List.UnlinkMiddle | ds/list.go:160-165 | bypassing an inner node drops exactly that position |
| DoublyLinkedList.List.Unlink | ds/list.go:147-170 | unlinking the node at position i drops exactly element i and keeps the list consistent |
| DoublyLinkedList.List.Remove | ds/list.go:139-180 | removes the first occurrence from the head and returns it; an absent element gives the not-found error and no change |
| DoublyLinkedList.List.Contains | ds/list.go:184-195 | true exactly when the element occurs in the list |
| DoublyLinkedList.List.SwapLinks | ds/list.go:200-226 | the loop turns every node's Next into its old Prev and its Prev into its old Next, except the stale Prev of the new head |
| DoublyLinkedList.List.Reverse | ds/list.go:198-229 | forward traversal from Head yields the reversed sequence and the old head becomes Tail; with two or more nodes the new head's Prev still points at its old predecessor |
| DoublyLinkedList.List.ReverseFixed | ds/list.go:198-229 | the corrected reversal keeps the list fully consistent (Head.Prev nil) and reverses it |
| SinglyLinkedList.LinkedListNode.constructor | ds/linkedlist.go:10-15 | a new node holds the element and has no successor |
| SinglyLinkedList.LinkedList.constructor | ds/linkedlist.go:22-27 | a new list has a nil head and size 0 |
| SinglyLinkedList.LinkedList.Size | ds/linkedlist.go:30-32 | size is the number of nodes |
| SinglyLinkedList.LinkedList.Add | ds/linkedlist.go:35-40 | prepends the element |
| SinglyLinkedList.LinkedList.Unlink | ds/linkedlist.go:50-58 | bypassing the node after prevNode, or moving Head, drops exactly that position |
| SinglyLinkedList.LinkedList.Remove | ds/linkedlist.go:43-69 | removes the first occurrence and returns it; an absent element gives the error and no change |
| SinglyLinkedList.LinkedList.ReverseLinks | ds/linkedlist.go:75-85 | every Next now points to the previous node, and Head is the last node |
| SinglyLinkedList.LinkedList.Reverse | ds/linkedlist.go:72-86 | the list holds its reversed sequence in place, and size is kept |
| SinglyLinkedList.LinkedList.ReverseFrom | ds/linkedlist.go:92-105 | the recursion reverses the links from node i onward and leaves earlier links alone |
| SinglyLinkedList.LinkedList.ReverseRecursive | ds/linkedlist.go:88-90 | a non-empty list is reversed in place, and size is kept |
| Heap.ParentIndex | ds/heap.go:123-125 | the parent of slot i >= 1 lies in [0, i) |
| Heap.LeftChildIndex | ds/heap.go:113-115 | the left child lies after i and has i as its parent |
| Heap.RightChildIndex | ds/heap.go:118-120 | the right child follows the left child and has i as its parent |
| Heap.ChildrenOf | ds/heap.go:113-125 | i has parent c exactly when i is c's left or right child |
| Heap.UpStep | ds/heap.go:57-61 | swapping a child larger than its parent moves the single violation one level up |
| Heap.UpDone | ds/heap.go:56-65 | once the child is not above its parent, the heap property holds |
| Heap.DownStep | ds/heap.go:99-102 | swapping with the larger child moves the single violation one level down |
| Heap.LargerChild | ds/heap.go:88-97 | the chosen child is at least as large as every child of the node |
| Heap.DownDone | ds/heap.go:99-106 | once the node is at least its larger child, the heap property holds |
| Heap.RootIsMax | ds/heap.go:33-39 | in a heap every stored slot is at most slot 1 |
| Heap.RootIsMaxOfAll | ds/heap.go:33-39 | slot 1 is a stored element and is the maximum of all of them |
| Heap.MoveLastToRoot | ds/heap.go:76-81 | moving the last element to slot 1 and zeroing its slot removes one copy of the old top |
| Heap.PlaceLast | ds/heap.go:50-52 | writing the new element after the last slot adds it to the multiset |
| Heap.CopyInto | ds/heap.go:45-47 | the doubled buffer keeps the old slots and zeroes the new ones |
| Heap.SiftUp | ds/heap.go:54-66 | percolate-up restores the heap property and keeps the stored multiset |
| Heap.SiftStep | ds/heap.go:85-106 | one percolate-down step either stops at a settled node or swaps with the larger child and moves down |
| Heap.SiftDown | ds/heap.go:83-107 | percolate-down restores the heap property and keeps the stored multiset |
| Heap.MaxHeap.constructor | ds/heap.go:18-25 | a new heap has a five-slot buffer, size 0 and no elements |
| Heap.MaxHeap.Size | ds/heap.go:28-30 | size is the number of stored elements |
| Heap.MaxHeap.Peek | ds/heap.go:33-39 | the empty-peek error exactly when the heap is empty; otherwise a stored element that is the maximum |
| Heap.MaxHeap.Grow | ds/heap.go:43-48 | when size == len-1 the buffer doubles and keeps its contents; afterwards there is room |
| Heap.MaxHeap.Insert | ds/heap.go:50-66 | adds the element to the multiset and keeps the heap property |
| Heap.MaxHeap.Push | ds/heap.go:42-67 | size grows by one, the element joins the multiset, and the buffer doubles exactly when it was full |
| Heap.MaxHeap.MoveLastToTop | ds/heap.go:76-81 | the last element moves to slot 1 and its slot is zeroed: one copy of the old top leaves the multiset, and only slot 1 may now break the heap property |
| Heap.MaxHeap.TakeTop | ds/heap.go:76-107 | removes one copy of slot 1 and keeps the heap |
| Heap.MaxHeap.Pop | ds/heap.go:70-110 | an empty heap gives the empty-pop error; otherwise returns what Peek showed, the maximum, and removes one copy of it |
| Heap.LargestIsUnique | ds/heap.go:33-39 | two values that are both a stored maximum are equal, so Pop's result is determined |
| Heap.PushThree | ds/heap_test.go:82-86 | pushing 10, 5 and 2 stores them in the five-slot buffer |
| Heap.PushFive | ds/heap_test.go:82-89 | pushing 10, 5, 2, 100 and 50 stores five elements; the fifth push finds the buffer full and doubles it to 10 slots |
| Heap.PopLastThree | ds/heap_test.go:102-118 | popping 10, 5, 2 gives them largest first, then the error |
| Heap.PopsLargestFirst | ds/heap_test.go:82-119 | after the five pushes, the pops give 100, 50, 10, 5, 2, then the empty-pop error |
| HashTables.Low8 | ds/hash_table.go:9 | the byte added for a character is below 256 |
| HashTables.HashOf | ds/hash_table.go:5-13 | the hash lies below 2^64 |
| HashTables.ShiftAddIsTimes33 | ds/hash_table.go:10 | (hash << 5) + hash + c, wrapped, is hash * 33 + c modulo 2^64 |
| HashTables.Dbj2Hash | ds/hash_table.go:5-13 | the accumulator loop computes the djb2 fold, starting at 5381, modulo 2^64 |
| HashTables.HashSnoc | ds/hash_table.go:8-12 | appending a character multiplies the hash by 33 and adds its byte, modulo 2^64 |
| HashTables.LastByteDistinguishes | ds/hash_table.go:5-13 | strings that differ only in a last byte hash differently |
| HashTables.KnownHashes | ds/hash_table_test.go:10-26 | "Hello" hashes to 210676686969 and "Hello!" to 6952330670010 |
| HashTables.InFlatten | ds/hash_table.go:57-66 | a string is stored exactly when some bucket holds it |
| HashTables.MoveTableList | ds/hash_table.go:68-76 | a bucket list is moved whole to slot (hash of its head) % capacity |
| HashTables.MoveAll | ds/hash_table.go:78-90 | moving the lists into the new buckets gives a table with the new table's number of buckets |
| HashTables.ResizeByHead | ds/hash_table.go:78-90 | the doubled table is the old buckets moved by head hash, as written |
| HashTables.MoveAllLands | ds/hash_table.go:78-90 | a list lands at its head's slot unless a later list overwrites it |
| HashTables.MoveAllKeeps | ds/hash_table.go:68-90 | when the head of each of n buckets hashes to its own slot, moving the lists into 2n buckets overwrites no list and loses no string, and each head lands on a slot congruent to its old one |
| HashTables.ResizeByHeadKeeps | ds/hash_table.go:78-90 | the as-written resize of a table whose heads are placed keeps every string, and the heads of the doubled table are placed |
| HashTables.LetterHashes | ds/hash_table.go:5-13 | the hashes of "A", "K", "B", "C", "D" |
| HashTables.AddA | ds/hash_table.go:38-55 | adding "A" to a new table puts it in bucket 8 |
| HashTables.AddK | ds/hash_table.go:38-55 | adding "K" next puts it in front of "A" in bucket 8 |
| HashTables.AddD | ds/hash_table.go:38-55 | after "B" and "C", adding "D" gives the five-string table with [K, A] in bucket 8 and B, C, D in buckets 9, 0 and 1 |
| HashTables.ResizeFiveAdded | ds/hash_table.go:78-90 | resizing that table by head puts [K, A] in bucket 8 of 20 and leaves bucket 18 empty |
| HashTables.ResizeByHeadStrandsElement | ds/hash_table.go:38-90 | the five-string table has every string in the bucket of its own hash; adding "E" doubles it by head, which leaves "A" stored while bucket 18, the bucket of its hash, is empty |
| HashTables.HashTable.constructor | ds/hash_table.go:20-25 | a new table has 10 buckets and holds nothing |
| HashTables.HashTable.Len | ds/hash_table.go:28-30 | Len is the number of stored strings |
| HashTables.HashTable.Cap | ds/hash_table.go:33-35 | the capacity is at least 10 and at least twice Len |
| HashTables.HashTable.Get | ds/hash_table.go:57-66 | Ok returns a stored string whose hash selects the same bucket; the not-found error comes exactly when no bucket's head hashes there, even if a string further down a list does |
| HashTables.HashTable.Resize | ds/hash_table.go:78-90 | as written: the table doubles, each list moved whole by its head's hash; every string and len are kept, and the heads stay placed |
| HashTables.HashTable.Add | ds/hash_table.go:38-55 | the buckets become those of the model of Add; Len grows by one even for duplicates; the table doubles exactly when Len+1 > cap/2; right after, Get(hash of s) returns s |
| HashTables.FiveAdds | ds/hash_table.go:38-55 | adding "A", "K", "B", "C" and "D" to a new table builds the five-string table |
| HashTables.StrandingScenario | ds/hash_table.go:38-90 | after a sixth Add, "A" is one of the six stored strings, yet Get by the hash of "A" gives the not-found error |
| HashTables.RehashingHashTable.constructor | ds/hash_table.go:20-25 | a new corrected table has 10 buckets and holds nothing |
| HashTables.RehashingHashTable.Get | ds/hash_table.go:57-66 | with every string placed, the not-found error comes exactly when no stored string hashes to that bucket |
| HashTables.RehashingHashTable.Resize | ds/hash_table.go:78-90 | the corrected resize doubles the table, keeps every string and places each one by its own hash |
| HashTables.RehashingHashTable.Add | ds/hash_table.go:38-55 | over the corrected resize, Add keeps every string placed, grows Len by one, and Get(hash of s) returns s |
| HashTables.Rehash | ds/hash_table.go:68-76 | rehashing a list element by element adds its strings, each in its own slot |
| HashTables.ResizeRehashing | ds/hash_table.go:78-90 | the corrected resize keeps every string and places each by its own hash |
| MatrixGraphs.RenderSnoc | ds/matrixgraph.go:23-37 | rendering one more row appends that row's cells and a newline |
| MatrixGraphs.AppendCells | ds/matrixgraph.go:27-32 | the inner loop appends "1 " or "0 " per cell |
| MatrixGraphs.Stringify | ds/matrixgraph.go:23-37 | the nested loops build the row-major rendering of the matrix |
| MatrixGraphs.StringifyRoundTrip | ds/matrixgraph.go:23-37 | parsing the rendering gives the matrix back, so the rendering loses nothing |
| MatrixGraphs.StringifyExample | ds/matrixgraph_test.go:10-24 | the test grid renders as "1 1 1 1 \n0 0 1 1 \n1 1 1 0 \n1 0 1 1 \n" |
| MatrixGraphs.NewMatrixGraph | ds/matrixgraph.go:14-19 | the graph holds the given matrix as it is |
| MatrixGraphs.Digits | ds/matrixgraph.go:99 | the decimal form of a number is non-empty and all digits |
| MatrixGraphs.DigitsInjective | ds/matrixgraph.go:99 | equal decimal forms mean equal numbers |
| MatrixGraphs.NodeKey | ds/matrixgraph.go:98-100 | the key is all digits, at least two, and exactly two when row and column are below ten |
| MatrixGraphs.NodeKeyCollides | ds/matrixgraph.go:98-100 | the key "%d%d" gives "123" for both (1,23) and (12,3) |
| MatrixGraphs.CellKeyInjective | ds/matrixgraph.go:98-100 | the corrected key with a comma between row and column is unique per cell |
| MatrixGraphs.PathsFromExactly | ds/matrixgraph.go:50-94 | the path set is exactly the simple 4-neighbour paths through open, unvisited cells to the destination |
| MatrixGraphs.CountIsNumberOfPaths | ds/matrixgraph.go:50-94 | the recursive count over visited cells equals the number of such simple paths |
| MatrixGraphs.CountStep | ds/matrixgraph.go:81-91 | at an open, unvisited cell that is not the destination, the count is the sum over the four neighbours with the cell marked |
| MatrixGraphs.KeyedStep | ds/matrixgraph.go:81-91 | at an open cell whose key is unmarked and that is not the destination, the search's count is the sum over the four neighbours with its key marked |
| MatrixGraphs.ClosedDestinationUnreachable | ds/matrixgraph.go:57-79 | a destination that is out of bounds or blocked gives 0, whatever the key function |
| MatrixGraphs.MarkedDestinationUnreachable | ds/matrixgraph.go:71-79 | once the destination's key is in the visited set, the search returns 0, because the visited test comes before the destination test |
| MatrixGraphs.KeyLookup | ds/matrixgraph.go:72-75 | with a key function that tells the grid's cells apart, a cell's key is in the visited set exactly when the cell is on the path |
| MatrixGraphs.KeysOfMark | ds/matrixgraph.go:82 | marking a cell adds exactly its key to the visited keys |
| MatrixGraphs.KeyedIsCount | ds/matrixgraph.go:50-94 | with keys that tell cells apart, the search over visited keys counts what the count over visited cells does |
| MatrixGraphs.CellKeysApart | ds/matrixgraph.go:98-100 | the corrected key tells the cells of every grid apart |
| MatrixGraphs.SmallGridKeysApart | ds/matrixgraph.go:98-100 | "%d%d" tells the cells apart when the grid has at most ten rows of at most ten cells |
| MatrixGraphs.NumPathsFrom | ds/matrixgraph.go:50-70 | out of bounds and blocked cells give 0; the result is the search's count from the visited keys it was given, and the visited set is restored on return |
| MatrixGraphs.VisitOpen | ds/matrixgraph.go:71-94 | a marked key gives 0 and the destination 1; otherwise marks the key, sums the four neighbours, unmarks it, and returns the search's count |
| MatrixGraphs.NeighbourPaths | ds/matrixgraph.go:84-89 | the four recursive calls, in the source's order, sum the counts of the four neighbours and leave the visited set as it was |
| MatrixGraphs.NumPaths | ds/matrixgraph.go:41-44 | as written, keyed by "%d%d": the number of simple paths whenever those keys tell the grid's cells apart; 0 when the start or the destination is blocked or outside |
| MatrixGraphs.CorrectedNumPaths | ds/matrixgraph.go:41-44 | with the corrected key, the number of simple paths from start to destination on every grid; 0 when either end is blocked or outside |
| MatrixGraphs.CollidingKeys | ds/matrixgraph.go:98-100 | (1, 10) and (11, 0) both get the key "110" |
| MatrixGraphs.NodeKeyLosesPath | ds/matrixgraph.go:71-79 | on a 12-row grid a simple path leads from (1, 10) to (11, 0), yet the search keyed by "%d%d" counts 0 |
| MatrixGraphs.CollisionScenario | ds/matrixgraph.go:41-44 | NumPaths from (1, 10) to (11, 0) on that grid returns 0, the corrected search at least 1 |
| MatrixGraphs.OpenSquareHasTwoPaths | ds/matrixgraph.go:50-94 | in an open 2x2 grid there are two paths between opposite corners |
| MatrixGraphs.EnclosedCountsNothing | ds/matrixgraph.go:50-94 | a region without the destination, left only through cells already on the path, holds no path to it |
| MatrixGraphs.FromTopLeft | ds/matrixgraph_test.go:36-37 | on the test grid there are 2 paths from (0,0) to (3,3) |
| MatrixGraphs.FromTopMiddle | ds/matrixgraph_test.go:39-40 | 2 paths from (0,2) to (3,3), with any visited set that leaves the cells they use free |
| MatrixGraphs.FromRightEdge | ds/matrixgraph_test.go:42-43 | 2 paths from (1,3) to (3,3) |
| MatrixGraphs.FromUpperMiddle | ds/matrixgraph_test.go:45-46 | 1 path from (1,2) to (3,3) |
| MatrixGraphs.ExampleCounts | ds/matrixgraph_test.go:27-47 | NumPaths on the test grid returns 2, 2, 2 and 1 for the four calls of the test |
| MatrixGraphs.BlockedEndsFindNothing | ds/matrixgraph_test.go:49-83 | a start outside, a destination outside and a blocked start all give 0 |
| AlGraphs.TargetsOfNonSource | ds/algraph.go:18-25 | only sources become keys of the map |
| AlGraphs.AdjacencySnoc | ds/algraph.go:18-25 | each edge appends its destination to its source's list, in edge order |
| AlGraphs.NewAlGraph | ds/algraph.go:11-29 | any edge whose length is not 2 gives the invalid-edge error; otherwise the map is the adjacency of the edges |
| AlGraphs.ExampleAdjacency | ds/algraph_test.go:11-29 | the test edges give the test map |
| AlGraphs.ConstructExamples | ds/algraph_test.go:11-40 | the test edges build the test graph, and the malformed list gives the error |
| AlGraphs.NumPathsFrom | ds/algraph.go:40-59 | reaching the end gives 1, checked before the visited test; a visited vertex gives 0; the visited set is restored |
| AlGraphs.PathsFromExactly | ds/algraph.go:40-59 | the path set is exactly the simple paths that start at the current vertex and reach the end |
| AlGraphs.CountIsNumberOfPaths | ds/algraph.go:40-59 | without repeated neighbours, the count is the number of those simple paths |
| AlGraphs.NumPaths | ds/algraph.go:35-38 | counts from the start with nothing visited, and that is the number of simple paths when no vertex lists a neighbour twice |
| AlGraphs.ExampleFromA | ds/algraph_test.go:43-55 | the test graph has 2 paths from A to E |
| AlGraphs.ExamplePaths | ds/algraph_test.go:43-55 | NumPaths on the test graph from A to E is 2 |
| BinarySearchTrees.InsertTree | ds/bst.go:135-152 | adds exactly the element, duplicates included, keeps the ordering left < node <= right, and gives a node |
| BinarySearchTrees.MinElem | ds/bst.go:195-205 | the leftmost element is stored and, in an ordered tree, is the minimum |
| BinarySearchTrees.RemoveFinds | ds/bst.go:155-193 | in an ordered tree the element is found exactly when stored; a failed search returns the tree unchanged |
| BinarySearchTrees.RemoveTakesOne | ds/bst.go:155-193 | a successful removal takes out exactly one copy |
| BinarySearchTrees.RemoveOrdered | ds/bst.go:155-193 | the returned tree is ordered |
| BinarySearchTrees.RemoveTree | ds/bst.go:155-193 | the removal reports found only for an element the tree holds |
| BinarySearchTrees.RemoveTreeCorrect | ds/bst.go:155-193 | found iff stored; on success one copy is removed; otherwise the tree is unchanged; ordering is kept |
| BinarySearchTrees.RemovalCount | ds/bst.go:184-189 | the size changes by exactly -1 net on success (the successor case's increment cancels the inner decrement), and by 0 otherwise |
| BinarySearchTrees.InPlace | ds/bst.go:155-193 | the node passed in keeps its element, and a nil tree stays nil |
| BinarySearchTrees.InPlaceBelowRoot | ds/bst.go:155-168 | unless the root holds x, the node passed in ends up as the returned subtree |
| BinarySearchTrees.InPlaceOrdered | ds/bst.go:155-193 | the node passed in stays ordered after the call |
| BinarySearchTrees.BST.constructor | ds/bst.go:32-37 | a new tree has a nil root and size 0 |
| BinarySearchTrees.BST.Size | ds/bst.go:39-41 | size is the element count in a consistent tree |
| BinarySearchTrees.BST.FindMin | ds/bst.go:45-55 | the empty-tree error exactly when the tree is empty; otherwise a stored element that is the minimum |
| BinarySearchTrees.BST.InsertAt | ds/bst.go:135-152 | the recursion returns the inserted tree and increments size once |
| BinarySearchTrees.BST.Insert | ds/bst.go:58-60 | the root becomes the inserted tree, size grows by one, and consistency is kept |
| BinarySearchTrees.BST.RemoveAt | ds/bst.go:155-193 | the recursion returns the removed tree and decrements size once on success |
| BinarySearchTrees.BST.Remove | ds/bst.go:63-70 | as written: the not-found error or success; on success the visible root is the mutated old root node, not the returned subtree |
| BinarySearchTrees.RootRemovalKeepsElement | ds/bst.go:63-70 | removing the root's element finds it, but the visible tree keeps 10 |
| BinarySearchTrees.RootRemovalScenario | ds/bst.go:63-70 | inserting 10 and 20 and then removing 10 three times succeeds each time, leaves the tree unchanged and drives the size to -1 |
| BinarySearchTrees.BST.RemoveCorrected | ds/bst.go:63-70 | the corrected removal installs the returned subtree: success iff the element was stored, one copy removed, consistency kept |
| BinarySearchTrees.FirstInserts | ds/bst_test.go:40-44 | inserting 10, 5, 7, 17, 3 puts 5 (with 3 and 7) left of 10 and 17 right of it |
| BinarySearchTrees.ExampleInserts | ds/bst_test.go:74-98 | the nine inserts of the removal tests give the tree the test inspects, with size 9 |
| BinarySearchTrees.ExampleRemovalsLeft | ds/bst_test.go:100-150 | removing the leaf 6 empties the left of 7; removing 7, whose only child is 6, promotes 6 |
| BinarySearchTrees.ExampleRemovalsRight | ds/bst_test.go:152-231 | removing 13, whose only child is 15, promotes 15; removing 17, which has two children, puts the right subtree's minimum 24 in its place, over the old left subtree |
| BinarySearchTrees.ExampleMin | ds/bst_test.go:36-52 | the minimum of the test tree is 3 |
| AvlTrees.TreeHeight | ds/avltree.go:27-51 | the height is -1 for nil, and one more than the taller child otherwise |
| AvlTrees.AccurateHeight | ds/avltree.go:27-33 | when the cached heights are accurate, the cached height is the real height |
| AvlTrees.NewNode | ds/avltree.go:18-25 | a new node is an accurate leaf of height 0 holding the element |
| AvlTrees.GetHeight | ds/avltree.go:27-31 | the height is one more than one child's cached height and above both |
| AvlTrees.GetBalanceFactor | ds/avltree.go:33-38 | the factor is positive exactly when the left child's cached height is greater, negative exactly when the right's is |
| AvlTrees.HeightsOfNode | ds/avltree.go:27-51 | with accurate children, getChildrenHeights returns the children's real heights (-1 for nil), GetHeight is the node's real height and GetBalanceFactor is left height minus right height |
| AvlTrees.Refresh | ds/avltree.go:141 | refreshing the height keeps the node's children and element |
| AvlTrees.RefreshMakesAccurate | ds/avltree.go:141-145 | refreshing a node whose children are accurate makes its cached height its real height |
| AvlTrees.NodeCountIsSize | ds/avltree.go:68-70 | in an ordered tree the node count is the number of distinct elements |
| AvlTrees.LeftRotation | ds/avltree.go:242-251 | the in-order sequence and the elements are kept, and the heights stay accurate |
| AvlTrees.RightRotation | ds/avltree.go:254-263 | the in-order sequence and the elements are kept, and the heights stay accurate |
| AvlTrees.RotationsOrdered | ds/avltree.go:242-263 | a rotation is ordered exactly when the tree it rotates is |
| AvlTrees.Balance | ds/avltree.go:204-227 | only rotates at a child that exists; keeps the in-order sequence and elements; keeps the heights accurate |
| AvlTrees.Rebuild | ds/avltree.go:141-145 | refreshing the height and balancing gives an accurate node with the same in-order sequence |
| AvlTrees.RebuildOrdered | ds/avltree.go:204-227 | balancing keeps the ordering |
| AvlTrees.Search | ds/avltree.go:104-118 | a node returned holds x; in an ordered tree a node is returned exactly when x is stored |
| AvlTrees.FindMin | ds/avltree.go:229-239 | the leftmost node exists exactly when the tree is non-empty, and holds the minimum |
| AvlTrees.InsertTree | ds/avltree.go:120-148 | success gives an accurate tree with exactly the element added; failure is the duplicate error |
| AvlTrees.RemoveTree | ds/avltree.go:150-200 | success gives an accurate subset of the tree; failure is the not-found error |
| AvlTrees.RebuildBalanced | ds/avltree.go:204-227 | a node whose children differ in height by at most 2 comes out balanced, and its height grows by at most one |
| AvlTrees.SingleRight | ds/avltree.go:216-223 | a single right rotation repairs a left-left imbalance |
| AvlTrees.DoubleRight | ds/avltree.go:216-223 | a left-right imbalance is repaired by the double rotation |
| AvlTrees.SingleLeft | ds/avltree.go:208-215 | a single left rotation repairs a right-right imbalance |
| AvlTrees.DoubleLeft | ds/avltree.go:208-215 | a right-left imbalance is repaired by the double rotation |
| AvlTrees.InsertCorrect | ds/avltree.go:120-148 | in an AVL tree, the duplicate error exactly when x is stored; otherwise the result is an AVL tree whose height grew by at most one |
| AvlTrees.RemoveCorrect | ds/avltree.go:150-200 | in an AVL tree, the not-found error exactly when x is absent; otherwise an AVL tree with exactly x removed, whose height fell by at most one |
| AvlTrees.InsertCounted | ds/avltree.go:79-88 | a successful insert adds exactly one node, so size stays the node count |
| AvlTrees.RemoveCounted | ds/avltree.go:184-189 | a successful removal removes exactly one node (the successor case's size++ cancels the inner decrement) |
| AvlTrees.AVLTree.constructor | ds/avltree.go:60-65 | a new tree has a nil root and size 0 |
| AvlTrees.AVLTree.Size | ds/avltree.go:68-70 | size is the element count of a valid tree |
| AvlTrees.AVLTree.Contains | ds/avltree.go:73-77 | true exactly when the element is stored, and false on an empty tree |
| AvlTrees.AVLTree.Insert | ds/avltree.go:80-88 | success adds exactly x and keeps the tree a valid AVL tree; a duplicate gives the error and changes nothing |
| AvlTrees.AVLTree.RemoveAt | ds/avltree.go:150-200 | the recursion returns the removed subtree and drops size by one on success; failure returns the subtree unchanged |
| AvlTrees.AVLTree.Remove | ds/avltree.go:92-99 | success removes exactly x and keeps the tree valid; an absent element gives the error and changes nothing |
| AvlTreeExamples.FirstInsert | ds/avltree_test.go:31-39 | inserting 10 into an empty tree gives a leaf |
| AvlTreeExamples.SecondInsertRight | ds/avltree_test.go:51-60 | 15 becomes the right child of 10 |
| AvlTreeExamples.LeftHeavyInsert | ds/avltree_test.go:62-73 | 10, 5, 1 rotates right to root 5 |
| AvlTreeExamples.RightHeavyInsert | ds/avltree_test.go:75-86 | 10, 15, 17 rotates left to root 15 |
| AvlTreeExamples.FifthInsert | ds/avltree_test.go:88-101 | 10, 5, 15, 3, 8 gives root 10 with 5(3, 8) and 15 |
| AvlTreeExamples.SixthInsert | ds/avltree_test.go:103-111 | inserting 1 next gives root 5 with 3(1, -) and 10(8, 15) |
| AvlTreeExamples.EighteenInsert | ds/avltree_test.go:114-127 | 10, 5, 15, 11, 18 gives root 10 with 5 and 15(11, 18) |
| AvlTreeExamples.MirrorSixthInsert | ds/avltree_test.go:129-137 | inserting 20 next gives root 15 with 10(5, 11) and 18(-, 20) |
| AvlTreeExamples.ErrorScenario | ds/avltree.go:73-99 | on a new tree, 10 is not contained and removing it fails; the first insert succeeds and a second gives the duplicate error, leaving size 1 |

## Left out

- Integer width. Go's `int` is 64 bits wide, but the model uses unbounded integers everywhere except in `Dbj2Hash`, where the wrap modulo 2^64 of `uint` is written out. So `Fibonacci.BruteForce` and the other Fibonacci variants do not model the int64 overflow from n = 93 on. The sorts and the path counts do not model overflow either.
- Characters in `Dbj2Hash`. Go converts each rune with `byte(c)`, which keeps its low 8 bits. `HashTables.Low8` models that truncation as `c % 256`. UTF-8 decoding of the string into runes is not modelled, because strings are sequences of code points.
- Generics. `constraints.Ordered` element types are specialised to `int` (strings for the hash table and the adjacency-list graph).
- Zero values. An error result in Go returns the element type's zero value next to the error. `Result.Err` carries only the message. `BinarySearch.Binary` does model the zero value, because its result has no error.
- QuickSort.Partition: the pivot index comes from `math/rand`. It is modelled as an arbitrary index in [low, high], so the contract holds for every choice.
- MergeSort.MergeHelper: modelled on sequence values, because the Go function already returns new slices. MergeSort.InPlaceMerge returns a new sorted sequence and never writes its argument, as in the source.
- CountPaths.TopDown: the cache is one `array2` as wide as the widest row, where Go allocates each cache row with its own row's width. Cells past a row's end are never read, so the results agree.
- CountPaths.BruteForce and CountPaths.TopDown take natural-number rows, because Go panics on `grid[r]` for a negative row. `BruteForce` takes any integer column, as Go does; a negative column walks right until it reaches the grid.
- CountPaths.TopDown and CountPaths.Paths take natural-number columns. With a negative column, Go's `topDown` returns 1 at the destination and otherwise indexes the cache out of range, which panics; that panic is not modelled.
- CountingSort.Counting, CountingSort.InPlaceCounting and CountingSort.CountingHelper require every element to be below the list length. Go indexes the bucket array out of range otherwise, and that panic is not modelled.
- Fibonacci.Memoization requires n >= -1, because Go's `make([]int, n+1)` panics below that.
- SinglyLinkedList.LinkedList.ReverseRecursive requires a non-empty list, because the Go code dereferences a nil `Head` on an empty list.
- AvlTrees.AVLTree.Insert and AvlTrees.AVLTree.Remove require accurate cached heights in the root. Every tree built by the constructor and these methods has them.
- Tree nodes. BST and AVL nodes are modelled as tree values, so sharing and aliasing of node pointers are not modelled. For the BST, the one case where the in-place update is observable (Remove on the root's element) is modelled by `BinarySearchTrees.InPlace`.
- DoublyLinkedList.List.Reverse: its contract is weaker than the invariant of the other list methods, because the Go Reverse leaves each new head's Prev pointing at its old neighbour. After a Reverse of two or more nodes, Valid() no longer holds, and the other methods (whose contracts require Valid()) are not specified on such a list. In Go the consequences are these, writing n1 and n2 for the nodes holding 1 and 2. Reverse the list [1, 2]; Head is then n2, and n2.Prev still points to n1. Remove(2) now takes the middle-node branch (ds/list.go:160-165), because n2.Prev is not nil. It sets n1.Next and n1.Prev to n1 and leaves Head on the unlinked n2, so Contains(2) still answers true. If the reversed list is instead reversed a second time, n1.Next points to n2 and n2.Next points to n1, so Contains(3) never returns.
- GC pointer clearing. Clearing `Next`/`Prev` of removed list nodes (ds/list.go:102, 129, 168-169) only helps garbage collection. The unlinked nodes are simply dropped from the footprint.
- Hash table buckets. Bucket lists are sequences of strings rather than `List` objects, so two buckets never share one list. `HashTables.HashTable` keeps the source's resize, which moves each list whole by its head's hash; its invariant only says that every head is in its own slot. `HashTables.RehashingHashTable` is the corrected table: its `Rehash` adds a list's strings one at a time, so the order within a new bucket differs from a whole-list move.
- Adjacency-list paths. AlGraphs.CountIsNumberOfPaths and AlGraphs.NumPaths relate the count to the number of distinct paths only when no vertex lists a neighbour twice. With duplicate edges the DFS counts a path once per duplicate.
- GetMap. `AlGraph.GetMap` is the field `m` of the `AlGraph` value.
- NewMatrixGraph. `MatrixGraphs.NewMatrixGraph` returns the graph as a value that holds the matrix, where Go returns a pointer to a new struct. Nothing mutates a graph, so the pointer is not observable.
- BST traversals. The printing traversals of ds/bst.go (`InOrder`, `PreOrder`, `PostOrder`, `BreadthFirst`, lines 75-129 and 207-235) only write to the console.
- queuenative.go. ds/queuenative.go is a wrapper around Go's `container/list` and is not part of this model.
- Test-only APIs. Some tests call APIs the source does not define: `Heapify`, `NumIslands`, `ShortestPath`, `countpaths.BottomUp` and `List.Size`. Those tests are not modelled.

## Findings

| source | as written | input that shows it | evidently intended | confidence | as-written member | corrected member |
|---|---|---|---|---|---|---|
| ds/list.go:219-224 | Reverse sets each node's Prev to its old Next, but never clears the Prev of the new head | a list 1, 2: after Reverse, Head is 2 and Head.Prev still points to 1 | the new head's Prev is nil, so backward traversal from Tail is correct | not executed | DoublyLinkedList.List.Reverse | DoublyLinkedList.List.ReverseFixed |
| ds/bst.go:65-67 | Remove writes the returned subtree into Root only when an error occurred | insert 10 and 20, then Remove(10) three times: each call succeeds, the tree still holds 10 and size becomes -1 | Root takes the returned subtree on success | not executed | BinarySearchTrees.RootRemovalScenario | BinarySearchTrees.BST.RemoveCorrected |
| ds/matrixgraph.go:98-100 | nodeKey joins row and column with "%d%d", and numPaths uses that key for its visited set | on a grid of 12 rows whose row 1 has 11 open cells and whose other rows are one cell each, open from row 2 down, NumPaths from (1,10) to (11,0) marks key "110" at the start, finds the same key at the destination and returns 0, although a simple path exists | a key that is unique per cell, so the search counts every simple path | not executed | MatrixGraphs.CollisionScenario | MatrixGraphs.CorrectedNumPaths |
| ds/hash_table.go:68-90 | resize moves each bucket list whole, to the slot of its head's hash | add "A", "K", "B", "C", "D" (A and K share slot 8 of 10), then a sixth string: the resize puts [K, A] in slot 8 of 20, so Get(Dbj2Hash("A")) finds slot 18 empty | every string goes to the slot of its own hash | not executed | HashTables.StrandingScenario | HashTables.RehashingHashTable.Add |
| a/countpaths/countpaths.go:11 | BruteForce returns 1 as soon as r == destR or c == destC | BruteForce(0, 1, 0, 0, [[0, 0]]) is 1, although (0,1) lies right of (0,0) and no path exists | return 1 only at (destR, destC), as topDown does | not executed | CountPaths.BruteForceDivergesRightOfDestination | CountPaths.PathsIsBinomial |
