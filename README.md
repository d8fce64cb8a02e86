# Verified model of a data-structures-and-algorithms exercise collection

The repository is a collection of small C++ exercises. They are linked lists with positional and value-based
insertion and deletion, in-place sorts, binary searches, and a series of string, array and counting problems.
This project models each exercise as Dafny code of the same shape and proves what each exercise is meant to compute.

How each kind of source code is modelled:

- **Linked lists.** Each list kind is a `List` class over `Node` objects. A ghost `Contents` sequence holds the
  values in list order, a ghost `Nodes` sequence holds the nodes, and `Repr` is the footprint. `Valid()` ties the
  `next` and `prev` fields to the order of `Nodes`. Every operation states its effect as an edit of `Contents`:
  prepend, append, insert at an index, remove at an index, or remove the first match. These edits are defined in
  `SeqEdits`.
- **In-place algorithms** work on an `array<int>`. Each is proved against a specification function on `a[..]`,
  together with sortedness, permutation (`multiset`) and "nothing outside the range changed" properties.
- **Read-only inputs** (`const` vectors, strings) are `seq` parameters. `unordered_map` becomes a Dafny `map`,
  `std::set` becomes a strictly increasing sequence, and `std::sort` becomes the repository's own quick sort.
- Each module names the source file it models in its header comment.

One module per source file:

| module | source |
|---|---|
| `SinglyLinkedList` | LinkedList/SinglyLinkedList.cpp |
| `DoublyLinkedList` | LinkedList/DoublyLinkedList.cpp |
| `SinglyCircularList` | LinkedList/SinglyCircularLinkedList.cpp |
| `DoublyCircularList` | LinkedList/DoublyCircularLinkedList.cpp |
| `MergeSort` | Sort/MergeSort.cpp |
| `QuickSort` | Recursion/QuickSort.cpp |
| `BubbleSort` | Sort/Bubblesort.cpp |
| `Sort01` | Sort01.cpp |
| `BinarySearch` | BinarySearch.cpp |
| `SearchRange` | leetcode/34.cpp |
| `SquareRoot` | leetcode/64.cpp |
| `Compress` | leetcode/443.cpp |
| `RemoveDuplicates` | leetcode/1047.cpp |
| `Subsequence` | leetcode/392.cpp |
| `PermutationWindow` | leetcode/567.cpp |
| `Palindrome` | leetcode/125.cpp |
| `LetterCombinations` | leetcode/17.cpp |
| `Intersection` | leetcode/349.cpp |
| `TwoSum` | leetcode/1.cpp |
| `PivotIndex` | leetcode/724.cpp |
| `PivotInteger` | leetcode/2485.cpp |
| `FindDuplicates` | leetcode/442.cpp |
| `ContainsDuplicate` | leetcode/217.cpp |
| `UniqueOccurrences` | 1207.cpp |
| `MiddleNode` | leetcode/876.cpp |
| `MaxOccurrence` | Strings/getMaxOccurence.cpp |
| `AlternateReverse` | alternatereversearray.cpp |
| `MinMax` | maxiandmini.cpp |
| `Binomial` | nCr.cpp |

Three modules hold shared definitions:

- `SortedSeqs`: sortedness, permutation of a range, and the cell swap `std::swap` performs.
- `SeqEdits`: the sequence edits that specify the lists.
- `Occurrences`: the `map[x]++` counting loop shared by 442.cpp and 217.cpp, and the facts about repeated values.

## Model

| member | source | states |
|---|---|---|
| `SeqEdits.InsertAt` | LinkedList/SinglyLinkedList.cpp:46-49 | the new element sits at index `i`, elements before `i` keep their index, later ones move up by one |
| `SeqEdits.RemoveAt` | LinkedList/SinglyLinkedList.cpp:71 | elements before `i` keep their index, later ones move down by one, the length drops by one |
| `SeqEdits.FirstIndexOf` | LinkedList/SinglyCircularLinkedList.cpp:52-59 | the index found holds `x` and no earlier index does; `|s|` when there is no match |
| `SeqEdits.FirstIndexOfAbsent` | LinkedList/SinglyCircularLinkedList.cpp:56-58 | the scan runs off the end exactly when the value is absent |
| `SeqEdits.TailFirstIndexOf` | LinkedList/DoublyCircularLinkedList.cpp:33-52 | a scan that checks the tail first and then goes on from the head finds a cell holding `x`, or `|s|` exactly when `x` is absent; below the tail it agrees with the head-first scan |
| `SeqEdits.InsertThenRemove` | LinkedList/SinglyLinkedList.cpp:46-49 | removing at the index just inserted at restores the list |
| `SeqEdits.InsertAtMultiset` | LinkedList/SinglyLinkedList.cpp:46-49 | an insertion adds exactly one copy of the new value |
| `SeqEdits.RemoveAtMultiset` | LinkedList/SinglyLinkedList.cpp:71-75 | a removal drops exactly one copy of the removed value |
| `SinglyLinkedList.Node.constructor` | LinkedList/SinglyLinkedList.cpp:6-15 | a new node holds `d` and points to NULL |
| `SinglyLinkedList.List.constructor` | LinkedList/SinglyLinkedList.cpp:98-105 | an empty list has head and tail NULL |
| `SinglyLinkedList.List.Single` | LinkedList/SinglyLinkedList.cpp:100-105 | the one-node list of the demonstration: the node is both head and tail |
| `SinglyLinkedList.List.InsertAtHead` | LinkedList/SinglyLinkedList.cpp:17-21 | contents become `[d] + old`, and tail is never updated |
| `SinglyLinkedList.List.InsertAtTail` | LinkedList/SinglyLinkedList.cpp:23-27 | with a non-NULL tail, contents become `old + [d]` and head stays |
| `SinglyLinkedList.List.InsertAtMiddle` | LinkedList/SinglyLinkedList.cpp:29-50 | `d` goes to 1-based position `n` (`n == 1` is the head path; `n == len + 1` is the tail path); `n <= 0` walks nowhere and inserts after the head, as the loop does |
| `SinglyLinkedList.List.SpliceIn` | LinkedList/SinglyLinkedList.cpp:46-49 | the splice after an inner node inserts at that index and leaves tail alone |
| `SinglyLinkedList.List.DeleteNode` | LinkedList/SinglyLinkedList.cpp:52-76 | for `1 <= n <= len`, element `n` is removed and nothing else changes; an emptied list has tail NULL; removing the last of several nodes moves tail to its predecessor, and any other removal leaves tail as it was, so a non-NULL tail stays non-NULL on a non-empty list |
| `SinglyLinkedList.List.DeleteFirst` | LinkedList/SinglyLinkedList.cpp:53-61 | the head is dropped; tail becomes NULL when the list empties and is otherwise unchanged |
| `SinglyLinkedList.List.UnlinkAfter` | LinkedList/SinglyLinkedList.cpp:71-75 | unlinking the node after `prev` removes exactly that index and that node from the footprint; tail becomes `prev` when the removed node was the last, and is otherwise unchanged |
| `SinglyLinkedList.List.Len` | LinkedList/SinglyLinkedList.cpp:87-95 | the count equals the number of nodes reachable from head |
| `SinglyLinkedList.DemoInserts` | LinkedList/SinglyLinkedList.cpp:98-119 | from the one-node list 10, the two tail insertions and three middle insertions give `10 15 20 25 30 35`, with a non-NULL tail |
| `SinglyLinkedList.Demo` | LinkedList/SinglyLinkedList.cpp:121-127 | deleting positions 1 and then 3 leaves `15 20 30 35`, and the tail is still non-NULL |
| `DoublyLinkedList.Node.constructor` | LinkedList/DoublyLinkedList.cpp:4-15 | a new node holds `d` with both links NULL |
| `DoublyLinkedList.List.constructor` | LinkedList/DoublyLinkedList.cpp:117-120 | an empty list has head and tail NULL |
| `DoublyLinkedList.List.InsertAtHead` | LinkedList/DoublyLinkedList.cpp:17-27 | contents become `[d] + old`; on an empty list head and tail are the new node |
| `DoublyLinkedList.List.InsertAtTail` | LinkedList/DoublyLinkedList.cpp:29-39 | contents become `old + [d]`; head changes only when the list was empty |
| `DoublyLinkedList.List.InsertAtMiddle` | LinkedList/DoublyLinkedList.cpp:41-62 | `d` goes to 1-based position `n`, and every other element keeps its order |
| `DoublyLinkedList.List.SpliceIn` | LinkedList/DoublyLinkedList.cpp:57-61 | the four-pointer splice inserts at the index after `temp` |
| `DoublyLinkedList.List.DeleteNode` | LinkedList/DoublyLinkedList.cpp:64-94 | for `1 <= pos <= len`, element `pos` is removed; an empty list and `pos > len` leave the list unchanged; an emptied list has head and tail NULL |
| `DoublyLinkedList.List.DeleteFirst` | LinkedList/DoublyLinkedList.cpp:67-75 | the head is dropped, and head and tail become NULL when the list empties |
| `DoublyLinkedList.List.DeleteLast` | LinkedList/DoublyLinkedList.cpp:85-90 | the last element is dropped, and tail moves to its predecessor with `next` NULL |
| `DoublyLinkedList.List.Unlink` | LinkedList/DoublyLinkedList.cpp:91-93 | bypassing an inner node removes exactly that index |
| `DoublyLinkedList.List.Len` | LinkedList/DoublyLinkedList.cpp:96-104 | the count equals the number of nodes reachable from head |
| `DoublyLinkedList.List.LinksAgree` | LinkedList/DoublyLinkedList.cpp:24-26 | in a valid list, `x.next == y` exactly when `y.prev == x`; `head.prev` and `tail.next` are NULL |
| `DoublyLinkedList.DemoInserts` | LinkedList/DoublyLinkedList.cpp:115-129 | from the one-node list 11, inserting 10 at the head, 13 at the tail and 12 at position 3 gives `10 11 12 13` |
| `DoublyLinkedList.Demo` | LinkedList/DoublyLinkedList.cpp:130-138 | `len` gives 4, and deleting positions 1, 2 and 2 leaves `11` |
| `SinglyCircularList.Node.constructor` | LinkedList/SinglyCircularLinkedList.cpp:6-19 | a new node holds `d` and points to NULL |
| `SinglyCircularList.List.constructor` | LinkedList/SinglyCircularLinkedList.cpp:84 | an empty ring has a NULL tail |
| `SinglyCircularList.List.RingCloses` | LinkedList/SinglyCircularLinkedList.cpp:28-37 | following `next` from the tail returns to it after exactly `|contents|` steps and not before |
| `SinglyCircularList.List.FollowFromTail` | LinkedList/SinglyCircularLinkedList.cpp:74-78 | the `k`-th successor of the tail is element `k - 1` of the contents |
| `SinglyCircularList.List.InsertNode` | LinkedList/SinglyCircularLinkedList.cpp:21-38 | an empty ring gets a one-node self-loop; otherwise `d` follows the first node holding `ele` in a scan that starts at the tail; an absent `ele` changes nothing |
| `SinglyCircularList.InsertAfterValueAdds` | LinkedList/SinglyCircularLinkedList.cpp:21-38 | the ring grows by one `d` exactly when it was empty or held `ele` |
| `SinglyCircularList.List.FindFromTail` | LinkedList/SinglyCircularLinkedList.cpp:28-37 | the do-while scan stops at a node holding `ele` exactly when one exists, at the index the tail-first scan gives |
| `SinglyCircularList.List.InsertAfterTail` | LinkedList/SinglyCircularLinkedList.cpp:31-34 | a node spliced after the tail becomes the first element, because tail is not reassigned |
| `SinglyCircularList.List.InsertAfter` | LinkedList/SinglyCircularLinkedList.cpp:31-34 | a node spliced after an inner node lands at the next index |
| `SinglyCircularList.List.DeleteNode` | LinkedList/SinglyCircularLinkedList.cpp:40-66 | the first match in head-to-tail order is removed; an empty ring or an absent value changes nothing; a sole matching node empties the ring |
| `SinglyCircularList.DeleteValueDropsOne` | LinkedList/SinglyCircularLinkedList.cpp:40-66 | a deletion drops one copy of `ele` when there is one, and nothing otherwise |
| `SinglyCircularList.List.FindFromFirst` | LinkedList/SinglyCircularLinkedList.cpp:44-59 | the scan from `tail.next` finds the first index holding `ele` exactly when it occurs, with `prev` the ring predecessor |
| `SinglyCircularList.List.UnlinkTail` | LinkedList/SinglyCircularLinkedList.cpp:60-63 | removing the tail drops the last element, and tail moves to its predecessor |
| `SinglyCircularList.List.Unlink` | LinkedList/SinglyCircularLinkedList.cpp:60-65 | bypassing a node that is not the tail removes exactly its index |
| `SinglyCircularList.DemoInserts` | LinkedList/SinglyCircularLinkedList.cpp:84-94 | the five insertions of the demonstration give the ring `2 3 4 5 1` from the head |
| `SinglyCircularList.DemoFirstDeletes` | LinkedList/SinglyCircularLinkedList.cpp:96-99 | deleting 3 and then 2 leaves `4 5 1` from the head |
| `SinglyCircularList.DemoDeletes` | LinkedList/SinglyCircularLinkedList.cpp:100-105 | deleting 1, 4 and 5 then empties the ring, with tail NULL |
| `DoublyCircularList.Node.constructor` | LinkedList/DoublyCircularLinkedList.cpp:4-19 | a new node holds `d` with both links NULL |
| `DoublyCircularList.List.constructor` | LinkedList/DoublyCircularLinkedList.cpp:120 | an empty ring has a NULL tail |
| `DoublyCircularList.List.Neighbours` | LinkedList/DoublyCircularLinkedList.cpp:39-42 | every node's `next` is the following node and its `prev` the preceding one, wrapping round |
| `DoublyCircularList.List.LinksAgree` | LinkedList/DoublyCircularLinkedList.cpp:39-42 | in a valid ring, `x.next == y` exactly when `y.prev == x` |
| `DoublyCircularList.List.RingCloses` | LinkedList/DoublyCircularLinkedList.cpp:35-52 | following `next` from the tail returns to it after exactly `|contents|` steps and not before |
| `DoublyCircularList.List.FollowFromTail` | LinkedList/DoublyCircularLinkedList.cpp:107-112 | the `k`-th successor of the tail is element `k - 1` of the contents |
| `DoublyCircularList.List.InsertNode` | LinkedList/DoublyCircularLinkedList.cpp:22-55 | an empty ring gets a one-node self-loop; otherwise `d` follows the first match of a scan that starts at the tail; an absent element changes nothing |
| `DoublyCircularList.InsertAfterValueAdds` | LinkedList/DoublyCircularLinkedList.cpp:22-55 | the ring grows by one `d` exactly when it was empty or held `element` |
| `DoublyCircularList.List.FindFromTail` | LinkedList/DoublyCircularLinkedList.cpp:33-52 | the scan stops at a node holding `x` exactly when one exists, at the tail-first index |
| `DoublyCircularList.List.InsertAfterTail` | LinkedList/DoublyCircularLinkedList.cpp:37-47 | after the tail, the new node becomes the last element and the new tail |
| `DoublyCircularList.List.InsertAfter` | LinkedList/DoublyCircularLinkedList.cpp:37-43 | after an inner node, the new node lands at the next index |
| `DoublyCircularList.List.DeleteNode` | LinkedList/DoublyCircularLinkedList.cpp:59-96 | the match the tail-first scan finds is removed; an empty ring or an absent value changes nothing; a sole node empties the ring |
| `DoublyCircularList.DeleteValueDropsOne` | LinkedList/DoublyCircularLinkedList.cpp:59-96 | a deletion drops one copy of `value` when there is one, and nothing otherwise |
| `DoublyCircularList.List.UnlinkTail` | LinkedList/DoublyCircularLinkedList.cpp:79-84 | removing the tail drops the last element, and tail moves to its predecessor |
| `DoublyCircularList.List.Unlink` | LinkedList/DoublyCircularLinkedList.cpp:79-81 | bypassing a node removes exactly its index |
| `DoublyCircularList.Detach` | LinkedList/DoublyCircularLinkedList.cpp:86-87 | the removed node's links are cleared |
| `DoublyCircularList.DemoFirstInserts` | LinkedList/DoublyCircularLinkedList.cpp:120-128 | the first three insertions give the ring `1 3 5` |
| `DoublyCircularList.DemoInserts` | LinkedList/DoublyCircularLinkedList.cpp:120-134 | all five insertions give `1 2 3 4 5` |
| `DoublyCircularList.DemoFirstDeletes` | LinkedList/DoublyCircularLinkedList.cpp:137-140 | deleting 3 and 2 leaves `1 4 5` |
| `DoublyCircularList.DemoLastDeletes` | LinkedList/DoublyCircularLinkedList.cpp:143-149 | deleting 1, 4 and 5 then empties the ring, with tail NULL |
| `SortedSeqs.Swap` | alternatereversearray.cpp:4-8 | exactly the two cells are exchanged; every other cell is unchanged, and the cells are a permutation of the old ones |
| `SortedSeqs.SwapPermutes` | Recursion/QuickSort.cpp:12 | exchanging two cells keeps the multiset |
| `SortedSeqs.SortedUnique` | Sort/MergeSort.cpp:36-44 | two sorted permutations of the same values are equal, so a sorted result is determined by its input |
| `SortedSeqs.SampleSorted` | Sort/MergeSort.cpp:47 | the demonstration's sorted output is sorted |
| `SortedSeqs.SamplePermutation` | Sort/MergeSort.cpp:47 | the demonstration's output is a permutation of its input |
| `MergeSort.MergeFrom` | Sort/MergeSort.cpp:20-33 | the merge of two tails has the length of both together |
| `MergeSort.MergeStep` | Sort/MergeSort.cpp:20-27 | each step writes the smaller head, and on a tie the left one, which makes the merge stable |
| `MergeSort.MergePermutes` | Sort/MergeSort.cpp:9-33 | the merge holds exactly the elements of both runs |
| `MergeSort.MergeSorted` | Sort/MergeSort.cpp:5-34 | merging two sorted runs gives a sorted run |
| `MergeSort.MergedRange` | Sort/MergeSort.cpp:5-34 | the merge of sorted runs is sorted and a permutation of both |
| `MergeSort.Merge` | Sort/MergeSort.cpp:5-34 | `arr[s..e]` becomes the merge of its two old halves, and cells outside `[s, e]` are unchanged |
| `MergeSort.MergeBack` | Sort/MergeSort.cpp:18-33 | the three write loops put the merge of the copies back at `s`, and nothing else changes |
| `MergeSort.MergeRest` | Sort/MergeSort.cpp:28-33 | once one copy is used up, the rest of the other is written after the merged part |
| `MergeSort.MergeSort` | Sort/MergeSort.cpp:36-44 | `arr[s..e]` ends sorted as a permutation of itself, with the other cells unchanged; `s >= e` changes nothing |
| `MergeSort.SortStep` | Sort/MergeSort.cpp:39-43 | sorting both halves and merging them sorts the range |
| `MergeSort.Demo` | Sort/MergeSort.cpp:46-57 | `38 27 43 3 9 82 10` becomes `3 9 10 27 38 43 82` |
| `QuickSort.Partition` | Recursion/QuickSort.cpp:5-17 | returns `p` in `[s, e]` with the old `arr[e]` at `p`, smaller cells before it and no smaller cells after it, as a permutation of the range and with the rest of the array unchanged |
| `QuickSort.PivotPlaced` | Recursion/QuickSort.cpp:15-16 | the final swap after the loop establishes the partition |
| `QuickSort.QuickSort` | Recursion/QuickSort.cpp:19-25 | `arr[s..e]` ends sorted as a permutation of itself, with the other cells unchanged; `s >= e` changes nothing |
| `QuickSort.QuickStep` | Recursion/QuickSort.cpp:22-24 | partitioning and sorting both sides sorts the range |
| `QuickSort.JoinAround` | Recursion/QuickSort.cpp:22-24 | sorted parts on either side of a pivot, smaller before and larger after, join into a sorted permutation |
| `QuickSort.SortWhole` | Recursion/QuickSort.cpp:19-25 | sorting the whole array gives a sorted permutation of it |
| `QuickSort.Demo` | Recursion/QuickSort.cpp:27-37 | the demonstration array comes out as `3 9 10 27 38 43 82` |
| `BubbleSort.PassPermutes` | Sort/Bubblesort.cpp:13-18 | a pass only exchanges cells, so it keeps the multiset and the cells before `i` |
| `BubbleSort.PassWithoutSwap` | Sort/Bubblesort.cpp:13-18 | a pass that reports no swap leaves the array unchanged |
| `BubbleSort.PassLeavesLeast` | Sort/Bubblesort.cpp:13-18 | after pass `i`, `arr[i]` is at most every later cell |
| `BubbleSort.PassSettles` | Sort/Bubblesort.cpp:11-18 | a pass over a settled prefix extends it by one cell |
| `BubbleSort.SettledSorted` | Sort/Bubblesort.cpp:11-22 | a fully settled array is sorted |
| `BubbleSort.SortFromPermutes` | Sort/Bubblesort.cpp:11-22 | the sort as written returns a permutation of its input |
| `BubbleSort.SortFromSettles` | Sort/Bubblesort.cpp:11-21 | when the sort stops after pass `i`, the cells up to `i` are settled |
| `BubbleSort.StopsBeforeEnd` | Sort/Bubblesort.cpp:19-21 | on a non-empty array the sort always leaves through the early break |
| `BubbleSort.SortedExactlyWhenTailSorted` | Sort/Bubblesort.cpp:11-22 | when the sort stops at pass `k`, the array is sorted exactly when `arr[k + 1..]` is |
| `BubbleSort.SettledWithSortedRest` | Sort/Bubblesort.cpp:11-22 | a settled prefix followed by a sorted rest is sorted |
| `BubbleSort.EarlyExitLeavesUnsorted` | Sort/Bubblesort.cpp:19-21 | `[1, 3, 2]` makes no swap in pass 0 and is returned unsorted |
| `BubbleSort.Pass` | Sort/Bubblesort.cpp:12-18 | the inner loop leaves the array the pass function gives, with its swap flag |
| `BubbleSort.BubbleSort` | Sort/Bubblesort.cpp:8-23 | the array becomes the sort as written, always a permutation; arrays of at most one cell are unchanged |
| `BubbleSort.SortAllSettles` | Sort/Bubblesort.cpp:11-18 | with every pass run, the whole array is settled |
| `BubbleSort.SortAllSorts` | Sort/Bubblesort.cpp:11-18 | with every pass run, the result is sorted and a permutation |
| `BubbleSort.SortAllPermutes` | Sort/Bubblesort.cpp:11-18 | running every pass keeps the multiset |
| `BubbleSort.ExchangeSort` | Sort/Bubblesort.cpp:8-23 | the loops without the early break sort the array as a permutation |
| `Sort01.Sort01` | Sort01.cpp:5-18 | on zeros and ones, the array ends sorted as a permutation (so the number of zeros is kept); at most one cell is left unchanged |
| `Sort01.ZerosThenOnes` | Sort01.cpp:7-17 | zeros below the pointers and ones above them make a sorted array |
| `BinarySearch.BinarySearch` | BinarySearch.cpp:4-22 | a non-negative result holds `key`; on sorted input the result is -1 exactly when `key` is absent |
| `SearchRange.FirstOccurrence` | leetcode/34.cpp:7-25 | on sorted input, the smallest index holding `key`, or -1 exactly when `key` is absent |
| `SearchRange.LastOccurrence` | leetcode/34.cpp:26-44 | on sorted input, the largest index holding `key`, or -1 exactly when `key` is absent |
| `SearchRange.SearchRange` | leetcode/34.cpp:45-53 | both bounds are -1 together, exactly when `target` is absent; otherwise an index holds `target` exactly when it lies between them |
| `SquareRoot.MySqrt` | leetcode/64.cpp:3-24 | for `n >= 0`, `r * r <= n < (r + 1) * (r + 1)`; a negative `n` gives -1 |
| `SquareRoot.FloorRootUnique` | leetcode/64.cpp:3-24 | only one number satisfies the bracketing, so the answer is determined |
| `SquareRoot.PerfectSquareRoot` | leetcode/64.cpp:12 | a perfect square `k * k` gets exactly `k` |
| `Compress.Digits` | leetcode/443.cpp:21 | `to_string` of a count gives a non-empty string of decimal digits |
| `Compress.ValueOfDigits` | leetcode/443.cpp:21 | reading the digits back gives the count |
| `Compress.DigitsShort` | leetcode/443.cpp:20-24 | a count above one has fewer digits than its value |
| `Compress.RunEnd` | leetcode/443.cpp:14-17 | the inner loop stops at the end of the maximal run of `chars[i]` |
| `Compress.EncodeFits` | leetcode/443.cpp:13-26 | the encoding is never longer than the input, so the write index never overtakes the read index |
| `Compress.EncodeStep` | leetcode/443.cpp:18-26 | the encoding is the code of the first run, followed by the encoding of the rest |
| `Compress.CodeFits` | leetcode/443.cpp:18-25 | a run's code is no longer than the run |
| `Compress.DecodeEncode` | leetcode/443.cpp:13-27 | expanding the encoding gives back the input: each run is the character, plus its count when the count is over one |
| `Compress.Sample` | leetcode/443.cpp:9-29 | `aabccc` compresses to `a2bc3` |
| `Compress.WriteRun` | leetcode/443.cpp:18-25 | a run's character and count digits are written at `ans`, and nothing after them changes |
| `Compress.Compress` | leetcode/443.cpp:9-29 | the returned length is at most `n`; the front of `chars` holds the encoding; the cells after it are unchanged |
| `RemoveDuplicates.PushKeeps` | leetcode/1047.cpp:12-17 | a push or a pop keeps a stack free of equal neighbours |
| `RemoveDuplicates.ProcessLeavesNoPair` | leetcode/1047.cpp:11-18 | the result has no two equal adjacent characters |
| `RemoveDuplicates.ProcessLength` | leetcode/1047.cpp:11-18 | the result is no longer than the input and has the same parity |
| `RemoveDuplicates.NothingToRemove` | leetcode/1047.cpp:11-18 | an input without adjacent pairs comes out unchanged |
| `RemoveDuplicates.Idempotent` | leetcode/1047.cpp:9-20 | applied to its own output, the function returns that output |
| `RemoveDuplicates.Sample` | leetcode/1047.cpp:9-20 | `abbaca` becomes `ca` |
| `RemoveDuplicates.RemoveDuplicates` | leetcode/1047.cpp:9-20 | the loop computes the stack reduction, which has no adjacent pair, is no longer than the input and has the same parity |
| `Subsequence.EmptyIsSubsequence` | leetcode/392.cpp:15-19 | the empty string is a subsequence of every string |
| `Subsequence.MatchFirst` | leetcode/392.cpp:16-17 | when the first characters agree, `s1` is a subsequence of `s2` exactly when their tails are |
| `Subsequence.SkipFirst` | leetcode/392.cpp:17 | when they differ, dropping the first character of `s2` does not change the answer |
| `Subsequence.NoLonger` | leetcode/392.cpp:8-19 | a subsequence is never longer than the string it comes from |
| `Subsequence.IsSubSeq` | leetcode/392.cpp:8-20 | true exactly when `s1` can be obtained from `s2` by deleting characters |
| `PermutationWindow.CountMore` | leetcode/567.cpp:17-19 | counting a letter of `s1` raises its counter by one |
| `PermutationWindow.WindowGrows` | leetcode/567.cpp:24 | taking a cell into the window lowers its letter's counter by one |
| `PermutationWindow.WindowShrinks` | leetcode/567.cpp:25-28 | dropping the window's first cell raises its letter's counter by one |
| `PermutationWindow.CountsDecide` | leetcode/567.cpp:30-38 | all 26 counters are zero exactly when the window is a permutation of `s1` |
| `PermutationWindow.WindowFoundMeans` | leetcode/567.cpp:13-41 | for non-empty `s1`, some window is a permutation of `s1` exactly when some stretch of `|s1|` cells of `s2` is; an empty `s1` is found exactly when `s2` is non-empty; `|s1| > |s2|` never finds one |
| `PermutationWindow.AllZero` | leetcode/567.cpp:31-37 | the scan of the counters finds them all zero exactly when they are |
| `PermutationWindow.Slide` | leetcode/567.cpp:24-28 | after one step the counters are `s1`'s counts minus the window's, and the window's start moves up by one exactly when the window has grown past `|s1|` |
| `PermutationWindow.Decide` | leetcode/567.cpp:30-39 | at a full window the counters are all zero exactly when the window is a permutation of `s1` |
| `PermutationWindow.CheckInclusion` | leetcode/567.cpp:9-42 | on lower-case strings, true exactly when some window of `s2` holds the letters of `s1` |
| `Palindrome.IsValid` | leetcode/125.cpp:9-14 | true exactly on ASCII letters and digits, so every character it admits is ASCII |
| `Palindrome.Lower` | leetcode/125.cpp:15-22 | a lower-case letter stays; an upper-case letter becomes its lower-case letter; a digit lands on an upper-case letter between `P` and `Y`, where no folded letter lands |
| `Palindrome.LowerFoldsCase` | leetcode/125.cpp:15-22 | on letters and digits, `islower` identifies exactly the two cases of a letter; digits land where no letter does |
| `Palindrome.LowerOnLetters` | leetcode/125.cpp:15-22 | upper-case letters map to their lower-case letters, and lower-case letters stay |
| `Palindrome.CleanAppend` | leetcode/125.cpp:28-37 | cleaning a concatenation cleans each part |
| `Palindrome.PalindromeEnds` | leetcode/125.cpp:31-35 | a string with ends added is a palindrome exactly when the ends agree and the middle is one |
| `Palindrome.CompareEnds` | leetcode/125.cpp:31-35 | with a letter or digit at both ends, a window reads the same backwards exactly when its ends agree after `islower` and its inside does |
| `Palindrome.IsPalindromeTest` | leetcode/125.cpp:23-40 | true exactly when the letters and digits of `s`, through `islower`, read the same backwards |
| `Palindrome.NothingToCompare` | leetcode/125.cpp:28-39 | a string without letters or digits, the empty one included, passes |
| `LetterCombinations.ExpandCount` | leetcode/17.cpp:8-20 | there is one combination per choice of a letter for each key: the product of the key sizes |
| `LetterCombinations.ExpandMembers` | leetcode/17.cpp:8-20 | the combinations are exactly the extensions of `output` by one letter of each remaining key |
| `LetterCombinations.ExpandInOrder` | leetcode/17.cpp:15-18 | the combinations come out in dictionary order |
| `LetterCombinations.OrderedNoRepeats` | leetcode/17.cpp:15-18 | strictly ordered combinations contain no duplicates |
| `LetterCombinations.Solve` | leetcode/17.cpp:8-20 | `solve` appends the combinations that extend `output` and gives `output` back unchanged |
| `LetterCombinations.LetterCombinationsOf` | leetcode/17.cpp:21-29 | each result has one letter from the key of each digit, and every such string appears once; the results are in dictionary order and there are as many as the product of the key sizes |
| `LetterCombinations.NoDigits` | leetcode/17.cpp:9-11 | empty `digits` give exactly one empty string |
| `LetterCombinations.BlankKey` | leetcode/17.cpp:25 | a 0 or a 1 among the digits leaves no combination |
| `LetterCombinations.Sample` | leetcode/17.cpp:21-29 | `23` gives `ad ae af bd be bf cd ce cf` |
| `Intersection.SetInsert` | leetcode/349.cpp:21 | inserting into the set adds exactly `x` |
| `Intersection.InsertIncreasing` | leetcode/349.cpp:13 | the set stays strictly increasing |
| `Intersection.SkipLeft` | leetcode/349.cpp:24-25 | a smaller left head is in no common pair and can be skipped |
| `Intersection.SkipRight` | leetcode/349.cpp:27-28 | a smaller right head is in no common pair and can be skipped |
| `Intersection.TakeBoth` | leetcode/349.cpp:20-22 | equal heads are common, and the rest is the common part of the tails |
| `Intersection.Walk` | leetcode/349.cpp:18-30 | on sorted inputs the two-pointer loop collects, in increasing order, exactly the common values |
| `Intersection.CopyOut` | leetcode/349.cpp:32-34 | draining the set copies it in order |
| `Intersection.IntersectionOf` | leetcode/349.cpp:9-37 | `x` is in the strictly increasing result exactly when it is in both inputs; both inputs are left sorted as permutations of themselves |
| `TwoSum.Record` | leetcode/1.cpp:19 | the map sends each value seen to the latest index holding it |
| `TwoSum.TwoSumOf` | leetcode/1.cpp:10-22 | empty exactly when no pair sums to `target`; otherwise `[a, b]` with `a < b` summing to `target`, where `b` is the first index with an earlier partner and `a` the latest such partner |
| `TwoSum.Sample` | leetcode/1.cpp:10-22 | `2 7 11 15` with target 9 gives `[0, 1]` |
| `PivotIndex.SumSplit` | leetcode/724.cpp:9-18 | the sum of a sequence is the sum of its two parts |
| `PivotIndex.RightSum` | leetcode/724.cpp:15 | `totalSum - leftSum - nums[i]` is the sum right of `i` |
| `PivotIndex.PivotIndexOf` | leetcode/724.cpp:7-21 | the smallest index whose left and right sums agree, or -1 exactly when there is none |
| `PivotIndex.SamplePivot` | leetcode/724.cpp:14-16 | index 3 is the pivot of `1 7 3 6 5 6` |
| `PivotInteger.SumToFormula` | leetcode/2485.cpp:8-11 | twice the sum `1 + ... + k` is `k * (k + 1)` |
| `PivotInteger.PivotSquare` | leetcode/2485.cpp:13-17 | `x` is a pivot exactly when `2 * x * x == n * (n + 1)` |
| `PivotInteger.PivotUnique` | leetcode/2485.cpp:13-17 | there is at most one pivot |
| `PivotInteger.PivotIntegerOf` | leetcode/2485.cpp:7-20 | the smallest `x` in `1..n` with `1 + ... + (x - 1) == (x + 1) + ... + n`, or -1 exactly when there is none |
| `PivotInteger.SampleEight` | leetcode/2485.cpp:13-17 | 6 is the pivot of 8 |
| `PivotInteger.SampleOne` | leetcode/2485.cpp:13-17 | 1 is the pivot of 1 |
| `PivotInteger.SampleNone` | leetcode/2485.cpp:13-19 | 4 has no pivot |
| `Occurrences.Bump` | leetcode/442.cpp:13 | `map[v]++` raises `v`'s count by one from zero or its old count, and leaves the other keys alone |
| `Occurrences.CountStep` | leetcode/442.cpp:12-14 | counting one more cell keeps the map exact |
| `Occurrences.Tally` | leetcode/217.cpp:11-13 | the counting loop maps exactly the values present to their number of occurrences |
| `Occurrences.Pick` | leetcode/442.cpp:15 | the map iteration visits some key that is still left |
| `Occurrences.DistinctCount` | leetcode/217.cpp:11-19 | there are never more distinct values than cells, and fewer exactly when a value repeats |
| `Occurrences.PairIsRepeat` | 1207.cpp:34-38 | two equal cells exist exactly when some value is counted twice |
| `Occurrences.SortedPairAdjacent` | 1207.cpp:33-38 | in a sorted sequence, equal values sit side by side |
| `FindDuplicates.FindDuplicatesOf` | leetcode/442.cpp:8-21 | `x` is in the result exactly when it occurs more than once, and no value is listed twice |
| `ContainsDuplicate.ContainsDuplicateOf` | leetcode/217.cpp:8-20 | true exactly when some value occurs twice, equivalently when there are fewer distinct values than cells |
| `ContainsDuplicate.ShortHasNone` | leetcode/217.cpp:11-19 | empty and single-cell arrays have no duplicate |
| `UniqueOccurrences.OneValueUnique` | 1207.cpp:25-39 | an empty array, or one of a single repeated value, has unique counts |
| `UniqueOccurrences.RunCount` | 1207.cpp:26-30 | in a sorted array a maximal run holds every copy of its value |
| `UniqueOccurrences.RunStep` | 1207.cpp:25-32 | walking one more run adds its value and its count less one to the table |
| `UniqueOccurrences.RunCounts` | 1207.cpp:25-32 | `v` gets exactly one entry per distinct value, equal to its occurrences less one |
| `UniqueOccurrences.TableDecides` | 1207.cpp:25-39 | counts are unique exactly when `v` has no repeated entry |
| `UniqueOccurrences.PermutedCounts` | 1207.cpp:23 | sorting does not change which values occur how often |
| `UniqueOccurrences.AdjacentEqual` | 1207.cpp:34-38 | the final loop finds two equal neighbours exactly when there are some |
| `UniqueOccurrences.Decide` | 1207.cpp:33-39 | the sorted table has two equal neighbours exactly when two different values occur equally often |
| `UniqueOccurrences.UniqueOccurrencesOf` | 1207.cpp:8-40 | true exactly when no two different values occur the same number of times; `arr` is left sorted as a permutation |
| `MiddleNode.ListNode.constructor` | leetcode/876.cpp:3-8 | a node holds its value and the given next node |
| `MiddleNode.Len` | leetcode/876.cpp:13-21 | the number of nodes reachable from head |
| `MiddleNode.MiddleNodeOf` | leetcode/876.cpp:22-35 | the node at 0-based index `len / 2`, the second of two middles for an even length; NULL for an empty list |
| `MiddleNode.Sample` | leetcode/876.cpp:22-35 | in `1 2 3 4` the middle holds 3 |
| `MaxOccurrence.CaseBlind` | Strings/getMaxOccurence.cpp:16-21 | both cases of a letter go to the same counter |
| `MaxOccurrence.TallyStep` | Strings/getMaxOccurence.cpp:12-23 | counting one more letter raises exactly its counter |
| `MaxOccurrence.MostFrequentUnique` | Strings/getMaxOccurence.cpp:24-30 | only one letter has the highest count with every earlier letter strictly lower |
| `MaxOccurrence.GetMaxOccuringChar` | Strings/getMaxOccurence.cpp:7-33 | on a string of letters, the lower-case letter with the highest count, counting both cases, with ties going to the earliest letter |
| `MaxOccurrence.EmptyGivesA` | Strings/getMaxOccurence.cpp:24-31 | an empty string gives `a` |
| `AlternateReverse.PartnerInvolution` | alternatereversearray.cpp:11-12 | the partner of a cell is inside the array, and the partner of the partner is the cell itself |
| `AlternateReverse.AlternatedTwice` | alternatereversearray.cpp:10-14 | exchanging the pairs twice restores the array |
| `AlternateReverse.AlternatedFront` | alternatereversearray.cpp:11-12 | the first pair comes out exchanged, and the rest is done alike |
| `AlternateReverse.AlternatedPermutes` | alternatereversearray.cpp:10-14 | the exchange only rearranges the cells |
| `AlternateReverse.AlternateReverseOf` | alternatereversearray.cpp:10-14 | each pair `(0, 1), (2, 3), ...` is exchanged, and an odd last cell stays |
| `AlternateReverse.Sample` | alternatereversearray.cpp:10-14 | `1 2 3 4 5` becomes `2 1 4 3 5` |
| `MinMax.MaxiAndMini` | maxiandmini.cpp:5-17 | `maxi` bounds every cell from above and `mini` from below, and both are cells; an empty array gives `INT_MIN` and `INT_MAX` |
| `Binomial.Fact` | nCr.cpp:4-12 | the factorial is at least 1 |
| `Binomial.FactOf` | nCr.cpp:4-12 | the loop computes `n!`, with 1 for `n <= 0` |
| `Binomial.ChooseTooMany` | nCr.cpp:14-16 | nothing is chosen from fewer than `r` things |
| `Binomial.ChooseAll` | nCr.cpp:14-16 | choosing all `n` is one way |
| `Binomial.ChooseFact` | nCr.cpp:14-16 | the number of ways to choose `r` of `n`, times `r! (n - r)!`, is `n!` |
| `Binomial.PascalStep` | nCr.cpp:14-16 | the two halves of Pascal's rule add up in the factorial formula |
| `Binomial.Symmetry` | nCr.cpp:14-16 | choosing `r` is choosing the `n - r` left behind |
| `Binomial.Exact` | nCr.cpp:15 | an exact quotient is what integer division gives |
| `Binomial.NCr` | nCr.cpp:14-16 | for `0 <= r <= n`, the division is exact and gives the number of ways to choose `r` of `n` |
| `Binomial.Row5` | nCr.cpp:20-25 | row 5 of Pascal's triangle is `1 5 10 10 5 1` |
| `Binomial.Demo` | nCr.cpp:18-28 | the six calls of the demonstration give `1 5 10 10 5 1` |

## Left out

- Every `main` is left out, and so is all console input and output: `cin`, `cout`, `print` and `printArray`, and the
  "Element not found!" and "List is empty" messages. Those cases are modelled as unchanged state. The
  demonstrations become `Demo` methods with the same call sequence. The singly and doubly linear lists and the ring
  delete sequences state their intermediate contents as assertions.
- uniqueElementArray.cpp is not part of this model: all its logic is in `main` and prints from a hash map.
- The other Binary Search and Basics files are not part of this model either.
- `delete` and the destructors are left out, because Dafny memory is garbage-collected. A removed node is unlinked
  and dropped from `Repr`.
- Sizes are mathematical integers. The 32-bit overflow of the source is not modelled, in particular:
  - the factorials in nCr.cpp (wrong from `n = 13` on);
  - `target - nums[i]` in leetcode/1.cpp;
  - the sums in leetcode/724.cpp and leetcode/2485.cpp;
  - the run counts in leetcode/443.cpp.
- `MinMax.MaxiAndMini` is the exception: there the starting values `INT_MIN` and `INT_MAX` matter, so the cells
  are 32-bit values.
- Library internals are modelled by what they promise:
  - `std::sort` is the repository's own quick sort (`QuickSort.SortWhole`);
  - `std::set` is a strictly increasing sequence;
  - `to_string` is `Compress.Digits`.
- The order in which `unordered_map` is iterated is not modelled: `Occurrences.Pick` takes any remaining key.
  `FindDuplicates.FindDuplicatesOf` therefore states the result's values, not their order.
- Reference parameters are modelled as follows. `output` and `ans` of `solve` in leetcode/17.cpp are passed in and
  returned. The head and tail references of the lists are fields of the `List` class.
- Paths that dereference NULL or index out of range are excluded by preconditions:
  - `SinglyLinkedList.List.InsertAtTail` needs a non-NULL tail;
  - `SinglyLinkedList.List.InsertAtMiddle` and `DoublyLinkedList.List.InsertAtMiddle` need the position to be at
    most one past the end, on a list that is non-empty unless `n` is 1;
  - `SinglyLinkedList.List.InsertAtMiddle` also needs a non-NULL tail when it appends at the end;
  - `SinglyLinkedList.List.DeleteNode` needs `1 <= n <= len`;
  - `DoublyLinkedList.List.DeleteNode` needs `pos >= 1` on a non-empty list;
  - `PermutationWindow.CheckInclusion` needs lower-case strings;
  - `MaxOccurrence.GetMaxOccuringChar` needs every character to be a letter;
  - `LetterCombinations.LetterCombinationsOf` needs every character to be a digit.
- `Intersection.IntersectionOf` takes its two vectors as distinct arrays. The call in which both arguments are the
  same vector is not modelled.
- `Palindrome.Lower` is defined on ASCII characters only. The source applies it to letters and digits, and those
  are ASCII.
- `BubbleSort.BubbleSort` does not promise a sorted result, because the code as written does not deliver one (see
  Findings). What it promises instead: a permutation, and sortedness exactly when the suffix after the stopping
  pass is sorted.

## Findings

| source | as written | input that shows it | evidently intended | confidence | as-written member | corrected member |
|---|---|---|---|---|---|---|
| Sort/Bubblesort.cpp:19-21 | Pass `i` compares `arr[i]` with every later cell. A pass without a swap then breaks out of the sort, but such a pass only shows that `arr[i]` is already the least of the rest, not that the rest is sorted. | `[1, 3, 2]`: pass 0 swaps nothing, so the sort stops and returns `[1, 3, 2]` | a sorted permutation: every pass is run (or the early exit is kept only for an adjacent-swap bubble sort) | not executed | `BubbleSort.EarlyExitLeavesUnsorted` | `BubbleSort.ExchangeSort` |
