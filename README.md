# Verified models of five teaching containers

This project models, in Dafny, the five hand-written generic containers of
the `java-fundamentals-exercises` repository, and proves what each promises:

- **RecursiveBinarySearchTree** (`binary_search_tree.dfy`, module
  `BinarySearchTrees`): an unbalanced binary search tree without deletion.
  The node graph is the value datatype `Tree`. The class holds `root`,
  `size` and a ghost content set. The recursive private helpers (`insert`,
  `contains`, `depth`, `inOrderTraversal`) are functions on `Tree`. Lemmas
  prove that insertion keeps the search-tree ordering, reports `true`
  exactly for a new element and adds exactly one node. They also prove
  that lookup is membership, that the counter is the number of distinct
  elements, that the in-order traversal is the sorted content, and that
  `depth()` is the edge count of the longest path. Ascending input
  degenerates into a path.
- **LinkedList** (`linked_list.dfy`, module `LinkedLists`): a singly linked
  list of `Node` objects with `first`, `last` and `size`. The ghost
  sequences `Nodes` and `Contents` are the abstraction: `Chain` says
  consecutive nodes are linked, `Holds` says node `k` holds element `k`,
  and `NoRepeat` proves that a chain ending in `null` never revisits a
  node. Every operation is proved against `Contents`, including the
  in-place relinking of `add(index, …)` and `remove(index)`.
- **ArrayList** (`array_list.dfy`, module `ArrayLists`): an `array` of
  slots, where `None` is a null slot, together with `size` and capacity
  doubling. `System.arraycopy` is the method `ArrayCopy`, which copies as
  if through a temporary array and keeps the JVM's bounds checks.
- **LinkedQueue** (`linked_queue.dfy`, module `LinkedQueues`): a FIFO queue
  over linked nodes with `head`, `tail` and `size`.
- **LinkedStack** (`linked_stack.dfy`, module `LinkedStacks`): a LIFO stack
  over linked nodes with `head` and `size`. The scenarios of `StackTest`
  are stated as methods with contracts.

Exceptions are values: `Wrappers.Result`, `Wrappers.Outcome` and the
`Wrappers.Exception` kinds (`wrappers.dfy`). A Java `null` argument or
result is `Wrappers.Option`.

The model keeps the code's behaviour where it departs from what a list
usually promises:

- `ArrayList.add(index, element)` shifts the tail up and then writes the
  element into the new last slot (`ShiftThenAppend`). It is an insertion
  only at the end.
- `ArrayList.of` calls `set` on a list of size 0, so it fails for any
  non-empty argument.
- A zero-capacity `ArrayList` never grows: `add` fails after the counter
  has already moved to 1.
- `LinkedList.remove(size)` on a non-empty list dereferences a null node
  (`NullPointer`).
- `poll` and `pop` on an empty container return null (`None`) and change
  nothing.
- `depth()` counts edges, so the empty tree and a one-node tree both have
  depth 0.

## Model

| member | source | states |
|---|---|---|
| BinarySearchTrees.Search | 2-0-data-structures-and-algorithms/2-2-6-binary-search-tree/src/main/java/com/bobocode/cs/RecursiveBinarySearchTree.java:79-92 | the private lookup answers true only for a stored value (the converse, for search trees, is `SearchCorrect`) |
| BinarySearchTrees.InsertBelow | 2-0-data-structures-and-algorithms/2-2-6-binary-search-tree/src/main/java/com/bobocode/cs/RecursiveBinarySearchTree.java:50-71 | the private insert keeps the node it starts from as the root of the result, and the content gains exactly the value |
| BinarySearchTrees.Inserted | 2-0-data-structures-and-algorithms/2-2-6-binary-search-tree/src/main/java/com/bobocode/cs/RecursiveBinarySearchTree.java:41-48 | after the public insert there is a root, an existing root is kept, and the content gains exactly the value |
| BinarySearchTrees.BuildTree | 2-0-data-structures-and-algorithms/2-2-6-binary-search-tree/src/main/java/com/bobocode/cs/RecursiveBinarySearchTree.java:34-38 | the tree `of` builds has no root exactly when no elements are given |
| BinarySearchTrees.Height | 2-0-data-structures-and-algorithms/2-2-6-binary-search-tree/src/main/java/com/bobocode/cs/RecursiveBinarySearchTree.java:104-110 | the private depth is 0 exactly for a null node and never exceeds the number of nodes below it |
| BinarySearchTrees.TreeDepth | 2-0-data-structures-and-algorithms/2-2-6-binary-search-tree/src/main/java/com/bobocode/cs/RecursiveBinarySearchTree.java:100-102 | the public depth is 0 for the empty tree and for a one-node tree, and below the node count otherwise |
| BinarySearchTrees.InOrder | 2-0-data-structures-and-algorithms/2-2-6-binary-search-tree/src/main/java/com/bobocode/cs/RecursiveBinarySearchTree.java:117-123 | the traversal hands one value to the consumer per node |
| BinarySearchTrees.SearchCorrect | 2-0-data-structures-and-algorithms/2-2-6-binary-search-tree/src/main/java/com/bobocode/cs/RecursiveBinarySearchTree.java:79-92 | in a search tree, the recursive lookup that descends by the comparison is true exactly when the value is stored |
| BinarySearchTrees.InsertBelowShape | 2-0-data-structures-and-algorithms/2-2-6-binary-search-tree/src/main/java/com/bobocode/cs/RecursiveBinarySearchTree.java:50-71 | the recursive insert adds exactly the value, adds one node exactly when it reports true, reports true exactly when lookup fails, and leaves the subtree unchanged on false |
| BinarySearchTrees.InsertBelowKeepsOrder | 2-0-data-structures-and-algorithms/2-2-6-binary-search-tree/src/main/java/com/bobocode/cs/RecursiveBinarySearchTree.java:50-71 | the recursive insert keeps every left-subtree value below and every right-subtree value above its node |
| BinarySearchTrees.InsertedCorrect | 2-0-data-structures-and-algorithms/2-2-6-binary-search-tree/src/main/java/com/bobocode/cs/RecursiveBinarySearchTree.java:41-71 | insertion from the root (a new root for an empty tree) reports true exactly when the value was absent; the content gains exactly the value; one node more on true, the same tree on false; the ordering is kept |
| BinarySearchTrees.NodeCountIsCardinality | 2-0-data-structures-and-algorithms/2-2-6-binary-search-tree/src/main/java/com/bobocode/cs/RecursiveBinarySearchTree.java:95-97 | in a search tree the number of nodes equals the number of distinct stored values |
| BinarySearchTrees.InOrderSortedContent | 2-0-data-structures-and-algorithms/2-2-6-binary-search-tree/src/main/java/com/bobocode/cs/RecursiveBinarySearchTree.java:117-123 | the left-node-right traversal of a search tree is strictly increasing, holds exactly the stored values, and has one entry per node |
| BinarySearchTrees.PathShorterThanHeight | 2-0-data-structures-and-algorithms/2-2-6-binary-search-tree/src/main/java/com/bobocode/cs/RecursiveBinarySearchTree.java:104-110 | every root-to-node path has fewer edges than the node height the private depth computes |
| BinarySearchTrees.LongestPath | 2-0-data-structures-and-algorithms/2-2-6-binary-search-tree/src/main/java/com/bobocode/cs/RecursiveBinarySearchTree.java:104-110 | a non-empty tree has a root-to-node path with node height minus one edges |
| BinarySearchTrees.DepthIsLongestPath | 2-0-data-structures-and-algorithms/2-2-6-binary-search-tree/src/main/java/com/bobocode/cs/RecursiveBinarySearchTree.java:100-110 | the public depth is 0 for an empty tree, bounds every root-to-node path, and is reached by one path in a non-empty tree |
| BinarySearchTrees.BuildTreeCorrect | 2-0-data-structures-and-algorithms/2-2-6-binary-search-tree/src/main/java/com/bobocode/cs/RecursiveBinarySearchTree.java:34-38 | inserting the elements in turn gives a search tree holding exactly their distinct values, one node each |
| BinarySearchTrees.MembersCorrect | 2-0-data-structures-and-algorithms/2-2-6-binary-search-tree/src/main/java/com/bobocode/cs/RecursiveBinarySearchTree.java:34-38 | the set of distinct values collected from the argument of `of` is exactly the set of values occurring in it |
| BinarySearchTrees.InsertAboveSpine | 2-0-data-structures-and-algorithms/2-2-6-binary-search-tree/src/main/java/com/bobocode/cs/RecursiveBinarySearchTree.java:50-71 | inserting a value larger than every element of a tree without left children extends that path by one node |
| BinarySearchTrees.SortedInputDepth | 2-0-data-structures-and-algorithms/2-2-6-binary-search-tree/src/main/java/com/bobocode/cs/RecursiveBinarySearchTree.java:100-110 | strictly increasing input builds a tree with no left children whose node height is the number of elements |
| BinarySearchTrees.AscendingFiveDepth | 2-0-data-structures-and-algorithms/2-2-6-binary-search-tree/src/main/java/com/bobocode/cs/RecursiveBinarySearchTree.java:100-102 | any five increasing values inserted in order, such as 1, 2, 3, 4, 5, give depth 4 |
| BinarySearchTrees.DuplicateDropped | 2-0-data-structures-and-algorithms/2-2-6-binary-search-tree/src/main/java/com/bobocode/cs/RecursiveBinarySearchTree.java:34-38 | building from 5, 3, 8, 3, 1 keeps four nodes: the later duplicate is dropped |
| BinarySearchTrees.RecursiveBinarySearchTree.constructor | 2-0-data-structures-and-algorithms/2-2-6-binary-search-tree/src/main/java/com/bobocode/cs/RecursiveBinarySearchTree.java:31-32 | a new tree has no root, size 0 and no content |
| BinarySearchTrees.RecursiveBinarySearchTree.Of | 2-0-data-structures-and-algorithms/2-2-6-binary-search-tree/src/main/java/com/bobocode/cs/RecursiveBinarySearchTree.java:34-38 | the loop of inserts yields a valid tree equal to the one built by inserting each element in turn; it holds exactly the values of the argument, and its size is their number of distinct values |
| BinarySearchTrees.RecursiveBinarySearchTree.Insert | 2-0-data-structures-and-algorithms/2-2-6-binary-search-tree/src/main/java/com/bobocode/cs/RecursiveBinarySearchTree.java:41-48 | true exactly when the element was absent; the content gains exactly the element; the size grows by one on true; the tree is unchanged on false; the ordering and the counter invariant are kept |
| BinarySearchTrees.RecursiveBinarySearchTree.Contains | 2-0-data-structures-and-algorithms/2-2-6-binary-search-tree/src/main/java/com/bobocode/cs/RecursiveBinarySearchTree.java:74-92 | a null argument throws NullPointerException; otherwise the result is membership in the content |
| BinarySearchTrees.RecursiveBinarySearchTree.Size | 2-0-data-structures-and-algorithms/2-2-6-binary-search-tree/src/main/java/com/bobocode/cs/RecursiveBinarySearchTree.java:95-97 | the counter is the number of stored elements, and it is 0 exactly when there is no root |
| BinarySearchTrees.RecursiveBinarySearchTree.Depth | 2-0-data-structures-and-algorithms/2-2-6-binary-search-tree/src/main/java/com/bobocode/cs/RecursiveBinarySearchTree.java:100-110 | 0 for an empty tree; no root-to-node path has more edges; a non-empty tree has a path with exactly that many edges |
| BinarySearchTrees.RecursiveBinarySearchTree.InOrderTraversal | 2-0-data-structures-and-algorithms/2-2-6-binary-search-tree/src/main/java/com/bobocode/cs/RecursiveBinarySearchTree.java:113-123 | the consumer receives every stored element exactly once, in strictly increasing order |
| LinkedLists.NoRepeat | 2-0-data-structures-and-algorithms/2-2-4-linked-list/src/main/java/com/bobocode/cs/LinkedList.java:30-34 | a chain of nodes linked by `next` and ending in null never holds the same node twice |
| LinkedLists.Node.constructor | 2-0-data-structures-and-algorithms/2-2-4-linked-list/src/main/java/com/bobocode/cs/LinkedList.java:25-27 | a new node holds the value and links nowhere |
| LinkedLists.LinkedList.constructor | 2-0-data-structures-and-algorithms/2-2-4-linked-list/src/main/java/com/bobocode/cs/LinkedList.java:30-34 | a new list has no nodes, null `first` and `last`, and size 0 |
| LinkedLists.LinkedList.Of | 2-0-data-structures-and-algorithms/2-2-4-linked-list/src/main/java/com/bobocode/cs/LinkedList.java:43-47 | the new list holds the elements in the given order |
| LinkedLists.LinkedList.Add | 2-0-data-structures-and-algorithms/2-2-4-linked-list/src/main/java/com/bobocode/cs/LinkedList.java:55-64 | the element is appended after the old elements and the size grows by one |
| LinkedLists.LinkedList.AddAt | 2-0-data-structures-and-algorithms/2-2-4-linked-list/src/main/java/com/bobocode/cs/LinkedList.java:74-84 | for `0 <= index <= size` the element is inserted at `index` and the size grows by one; any other index throws IndexOutOfBoundsException and changes neither the elements nor the size |
| LinkedLists.LinkedList.AddAsFirst | 2-0-data-structures-and-algorithms/2-2-4-linked-list/src/main/java/com/bobocode/cs/LinkedList.java:86-92 | the node's element goes in front of the old elements; `last` is set when the list was empty |
| LinkedLists.LinkedList.AddAsLast | 2-0-data-structures-and-algorithms/2-2-4-linked-list/src/main/java/com/bobocode/cs/LinkedList.java:94-97 | the node's element goes after the old elements of a non-empty list |
| LinkedLists.LinkedList.AddAfterPredecessor | 2-0-data-structures-and-algorithms/2-2-4-linked-list/src/main/java/com/bobocode/cs/LinkedList.java:99-103 | with a predecessor at `index - 1` the node's element lands at `index`; otherwise the predecessor lookup throws IndexOutOfBoundsException and nothing changes |
| LinkedLists.LinkedList.LinkAfter | 2-0-data-structures-and-algorithms/2-2-4-linked-list/src/main/java/com/bobocode/cs/LinkedList.java:101-102 | the two link updates put the new node's element at `index` and keep every other element in order |
| LinkedLists.LinkedList.GetNodeByIndex | 2-0-data-structures-and-algorithms/2-2-4-linked-list/src/main/java/com/bobocode/cs/LinkedList.java:105-116 | the walk from `first` returns the node at a valid index; any other index throws IndexOutOfBoundsException |
| LinkedLists.LinkedList.CheckIndexBounds | 2-0-data-structures-and-algorithms/2-2-4-linked-list/src/main/java/com/bobocode/cs/LinkedList.java:118-122 | passes exactly for indices of existing elements, otherwise IndexOutOfBoundsException |
| LinkedLists.LinkedList.Set | 2-0-data-structures-and-algorithms/2-2-4-linked-list/src/main/java/com/bobocode/cs/LinkedList.java:132-134 | at a valid index only that element is replaced; any other index throws IndexOutOfBoundsException and changes nothing |
| LinkedLists.LinkedList.Get | 2-0-data-structures-and-algorithms/2-2-4-linked-list/src/main/java/com/bobocode/cs/LinkedList.java:144-146 | the element at a valid index; any other index throws IndexOutOfBoundsException |
| LinkedLists.LinkedList.GetFirst | 2-0-data-structures-and-algorithms/2-2-4-linked-list/src/main/java/com/bobocode/cs/LinkedList.java:155-160 | the first element, or NoSuchElementException when the list is empty |
| LinkedLists.LinkedList.GetLast | 2-0-data-structures-and-algorithms/2-2-4-linked-list/src/main/java/com/bobocode/cs/LinkedList.java:169-174 | the last element, or NoSuchElementException when the list is empty |
| LinkedLists.LinkedList.Remove | 2-0-data-structures-and-algorithms/2-2-4-linked-list/src/main/java/com/bobocode/cs/LinkedList.java:184-203 | a valid index returns the element there, removes it and decrements the size, keeping `first`/`last` consistent; `remove(size)` on a non-empty list throws NullPointerException; every other index throws IndexOutOfBoundsException; a throw changes nothing |
| LinkedLists.LinkedList.Unlink | 2-0-data-structures-and-algorithms/2-2-4-linked-list/src/main/java/com/bobocode/cs/LinkedList.java:194-199 | bypassing the successor of the node before `index` removes exactly the element at `index`, and moves `last` back when the last node goes |
| LinkedLists.LinkedList.Contains | 2-0-data-structures-and-algorithms/2-2-4-linked-list/src/main/java/com/bobocode/cs/LinkedList.java:212-221 | true exactly when one of the elements equals the argument |
| LinkedLists.LinkedList.IsEmpty | 2-0-data-structures-and-algorithms/2-2-4-linked-list/src/main/java/com/bobocode/cs/LinkedList.java:229-231 | empty exactly when there are no elements, exactly when the size is 0, and exactly when `last` is null |
| LinkedLists.LinkedList.Size | 2-0-data-structures-and-algorithms/2-2-4-linked-list/src/main/java/com/bobocode/cs/LinkedList.java:239-241 | the number of elements |
| LinkedLists.LinkedList.Clear | 2-0-data-structures-and-algorithms/2-2-4-linked-list/src/main/java/com/bobocode/cs/LinkedList.java:247-251 | back to no elements, null `first` and `last`, and size 0 |
| LinkedLists.AddAfterClear | 2-0-data-structures-and-algorithms/2-2-4-linked-list/src/main/java/com/bobocode/cs/LinkedList.java:247-251 | a cleared list can be used again: adding 2 after `clear()` leaves size 1 with 2 first |
| ArrayLists.ArrayCopy | 2-0-data-structures-and-algorithms/2-2-5-array-list/src/main/java/com/bobocode/cs/ArrayList.java:81 | throws ArrayIndexOutOfBoundsException and copies nothing when a position or the length is negative or a range does not fit; otherwise the destination range receives the old source range and every other destination slot is unchanged, even when source and destination are the same array |
| ArrayLists.ShiftThenAppend | 2-0-data-structures-and-algorithms/2-2-5-array-list/src/main/java/com/bobocode/cs/ArrayList.java:79-84 | after `add(index, element)` the list is one longer, ends with the element, keeps slots up to `index`, and holds slot `k - 1`'s old element in each slot `k` above `index` |
| ArrayLists.ShiftThenAppendNearEnd | 2-0-data-structures-and-algorithms/2-2-5-array-list/src/main/java/com/bobocode/cs/ArrayList.java:79-84 | at `index == size` or `index == size - 1`, `add(index, element)` is a plain append |
| ArrayLists.ShiftThenAppendIsNotInsertion | 2-0-data-structures-and-algorithms/2-2-5-array-list/src/main/java/com/bobocode/cs/ArrayList.java:79-84 | below the end, slot `index` keeps its old element, which is duplicated into slot `index + 1`; the result equals an insertion at `index` exactly when the element equals both the one at `index` and the last one |
| ArrayLists.RemovedAt | 2-0-data-structures-and-algorithms/2-2-5-array-list/src/main/java/com/bobocode/cs/ArrayList.java:156-165 | after `remove(index)` the list is one shorter, keeps the elements before `index`, and holds slot `k + 1`'s old element in each slot `k` from `index` on |
| ArrayLists.ArrayList.constructor | 2-0-data-structures-and-algorithms/2-2-5-array-list/src/main/java/com/bobocode/cs/ArrayList.java:28-30 | an empty list over a fresh array of the given length, every slot null |
| ArrayLists.ArrayList.Default | 2-0-data-structures-and-algorithms/2-2-5-array-list/src/main/java/com/bobocode/cs/ArrayList.java:36-38 | an empty list over a fresh array of length 5 |
| ArrayLists.ArrayList.Of | 2-0-data-structures-and-algorithms/2-2-5-array-list/src/main/java/com/bobocode/cs/ArrayList.java:46-52 | any non-empty argument throws IndexOutOfBoundsException from the first `set`; an empty one gives an empty list over a zero-length array |
| ArrayLists.ArrayList.Add | 2-0-data-structures-and-algorithms/2-2-5-array-list/src/main/java/com/bobocode/cs/ArrayList.java:60-64 | on a non-zero-length array the element is appended and a full array doubles first; on a zero-length array the store throws ArrayIndexOutOfBoundsException after the size has become 1 |
| ArrayLists.ArrayList.IncreaseArraySizeIfNeeded | 2-0-data-structures-and-algorithms/2-2-5-array-list/src/main/java/com/bobocode/cs/ArrayList.java:66-70 | a full array is replaced by a fresh one of twice the length holding the same elements; otherwise nothing changes |
| ArrayLists.ArrayList.AddAt | 2-0-data-structures-and-algorithms/2-2-5-array-list/src/main/java/com/bobocode/cs/ArrayList.java:79-84 | for `0 <= index <= size` on a non-zero-length array the elements become `ShiftThenAppend` of the old ones; otherwise the shift throws ArrayIndexOutOfBoundsException and the elements are unchanged; a full array doubles either way |
| ArrayLists.ArrayList.Get | 2-0-data-structures-and-algorithms/2-2-5-array-list/src/main/java/com/bobocode/cs/ArrayList.java:94-97 | the element at a valid index; any other index throws IndexOutOfBoundsException |
| ArrayLists.ArrayList.CheckIndex | 2-0-data-structures-and-algorithms/2-2-5-array-list/src/main/java/com/bobocode/cs/ArrayList.java:99-103 | passes exactly for indices of existing elements, otherwise IndexOutOfBoundsException |
| ArrayLists.ArrayList.GetFirst | 2-0-data-structures-and-algorithms/2-2-5-array-list/src/main/java/com/bobocode/cs/ArrayList.java:112-115 | slot 0's element, or NoSuchElementException when the list is empty |
| ArrayLists.ArrayList.CheckIfEmpty | 2-0-data-structures-and-algorithms/2-2-5-array-list/src/main/java/com/bobocode/cs/ArrayList.java:117-121 | passes exactly when there are elements, otherwise NoSuchElementException |
| ArrayLists.ArrayList.GetLast | 2-0-data-structures-and-algorithms/2-2-5-array-list/src/main/java/com/bobocode/cs/ArrayList.java:130-133 | the element in slot `size - 1`, or NoSuchElementException when the list is empty |
| ArrayLists.ArrayList.Set | 2-0-data-structures-and-algorithms/2-2-5-array-list/src/main/java/com/bobocode/cs/ArrayList.java:143-146 | at a valid index only that slot changes, to the element; any other index throws IndexOutOfBoundsException and changes nothing |
| ArrayLists.ArrayList.Remove | 2-0-data-structures-and-algorithms/2-2-5-array-list/src/main/java/com/bobocode/cs/ArrayList.java:156-165 | a valid index returns the element there; later slots move down by one, the vacated slot becomes null, and the size shrinks by one; any other index throws IndexOutOfBoundsException and changes nothing |
| ArrayLists.ArrayList.Contains | 2-0-data-structures-and-algorithms/2-2-5-array-list/src/main/java/com/bobocode/cs/ArrayList.java:174-176 | the scan over the whole array is true exactly when one of the elements equals the argument, because the slots past `size` are null |
| ArrayLists.ArrayList.IsEmpty | 2-0-data-structures-and-algorithms/2-2-5-array-list/src/main/java/com/bobocode/cs/ArrayList.java:184-186 | empty exactly when there are no elements |
| ArrayLists.ArrayList.Size | 2-0-data-structures-and-algorithms/2-2-5-array-list/src/main/java/com/bobocode/cs/ArrayList.java:192-194 | the number of elements, never more than the array length |
| ArrayLists.ArrayList.Clear | 2-0-data-structures-and-algorithms/2-2-5-array-list/src/main/java/com/bobocode/cs/ArrayList.java:200-203 | no elements, over a fresh array of length 5 |
| ArrayLists.AddAtOnThreeElements | 2-0-data-structures-and-algorithms/2-2-5-array-list/src/main/java/com/bobocode/cs/ArrayList.java:79-84 | `add(1, 7)` on the list 1, 2, 3 leaves 1, 2, 2, 7 |
| LinkedQueues.Node.constructor | 2-0-data-structures-and-algorithms/2-2-3-linked-queue/src/main/java/com/bobocode/cs/LinkedQueue.java:24-26 | a new node holds the value and links nowhere |
| LinkedQueues.LinkedQueue.constructor | 2-0-data-structures-and-algorithms/2-2-3-linked-queue/src/main/java/com/bobocode/cs/LinkedQueue.java:29-33 | a new queue has null `head` and `tail`, no elements and size 0 |
| LinkedQueues.LinkedQueue.Add | 2-0-data-structures-and-algorithms/2-2-3-linked-queue/src/main/java/com/bobocode/cs/LinkedQueue.java:40-50 | null throws NullPointerException and changes nothing; any other element joins after the old ones and the size grows by one |
| LinkedQueues.LinkedQueue.Poll | 2-0-data-structures-and-algorithms/2-2-3-linked-queue/src/main/java/com/bobocode/cs/LinkedQueue.java:57-67 | the oldest element, which leaves the queue and the size shrinks by one, clearing `tail` when the queue empties; null and no change on an empty queue |
| LinkedQueues.LinkedQueue.Size | 2-0-data-structures-and-algorithms/2-2-3-linked-queue/src/main/java/com/bobocode/cs/LinkedQueue.java:74-76 | the number of elements |
| LinkedQueues.LinkedQueue.IsEmpty | 2-0-data-structures-and-algorithms/2-2-3-linked-queue/src/main/java/com/bobocode/cs/LinkedQueue.java:83-85 | empty exactly when there are no elements, exactly when the size is 0, and exactly when `tail` is null |
| LinkedQueues.FirstInFirstOut | 2-0-data-structures-and-algorithms/2-2-3-linked-queue/src/main/java/com/bobocode/cs/LinkedQueue.java:40-67 | two elements added to a new queue are polled back in the order they were added, then null |
| LinkedStacks.Node.constructor | 6-0-test-driven-development/6-1-1-stack/src/main/java/com/bobocode/tdd/LinkedStack.java:10-12 | a new node holds the value and links nowhere |
| LinkedStacks.Node.WithNext | 6-0-test-driven-development/6-1-1-stack/src/main/java/com/bobocode/tdd/LinkedStack.java:14-17 | a new node holds the value and links to the given successor |
| LinkedStacks.LinkedStack.constructor | 6-0-test-driven-development/6-1-1-stack/src/main/java/com/bobocode/tdd/LinkedStack.java:20-21 | a new stack has a null `head`, no elements and size 0 |
| LinkedStacks.LinkedStack.Push | 6-0-test-driven-development/6-1-1-stack/src/main/java/com/bobocode/tdd/LinkedStack.java:23-31 | the element goes on top of the old elements and the size grows by one |
| LinkedStacks.LinkedStack.Pop | 6-0-test-driven-development/6-1-1-stack/src/main/java/com/bobocode/tdd/LinkedStack.java:33-41 | the top element, which is removed and the size shrinks by one; null and no change on an empty stack |
| LinkedStacks.LinkedStack.Size | 6-0-test-driven-development/6-1-1-stack/src/main/java/com/bobocode/tdd/LinkedStack.java:43-46 | the number of elements |
| LinkedStacks.LinkedStack.IsEmpty | 6-0-test-driven-development/6-1-1-stack/src/main/java/com/bobocode/tdd/LinkedStack.java:48-51 | empty exactly when there are no elements, exactly when the size is 0 |
| LinkedStacks.PushAndPopElement | 6-0-test-driven-development/6-1-1-stack/src/test/java/com/bobocode/tdd/StackTest.java:17-25 | popping right after a push returns the pushed element |
| LinkedStacks.PopOnEmptyStack | 6-0-test-driven-development/6-1-1-stack/src/test/java/com/bobocode/tdd/StackTest.java:27-30 | popping a new stack returns null |
| LinkedStacks.PopOnEmptyStackAfterRemoveElements | 6-0-test-driven-development/6-1-1-stack/src/test/java/com/bobocode/tdd/StackTest.java:32-37 | popping a stack emptied by an earlier pop returns null |
| LinkedStacks.SizeIsZeroOnEmptyStack | 6-0-test-driven-development/6-1-1-stack/src/test/java/com/bobocode/tdd/StackTest.java:39-43 | a new stack is empty and has size 0 |
| LinkedStacks.SizeAfterPushesAndPops | 6-0-test-driven-development/6-1-1-stack/src/test/java/com/bobocode/tdd/StackTest.java:45-56 | three pushes then two pops leave size 1 and a non-empty stack |

## Left out

- Tree as a value: the tree's nodes are the immutable datatype `Tree`, and `insert` rebuilds the path to the new leaf instead of writing `left`/`right` of an existing node. Sharing or aliasing of tree nodes is therefore not captured. The `size++` of the private recursive `insert` is counted once, in `RecursiveBinarySearchTree.Insert`.
- Element types: tree elements are `int` ordered by `<`, standing for a `Comparable` type whose `compareTo` is a strict total order. The other containers take any type with equality, standing for `equals`.
- `insert(null)` on the tree is not modelled. It succeeds on an empty tree and throws on a non-empty one. Null elements in the lists and the stack are not modelled either, except for `LinkedQueue.add(null)`.
- The `Consumer` of `inOrderTraversal` is modelled as the sequence of values it receives.
- `int` overflow of the counters and of `2 * size` in the array doubling is not modelled: integers are unbounded.
- `ArrayLists.ArrayList.constructor`: the capacity is a `nat`, so the `NegativeArraySizeException` of a negative capacity is not modelled.
- `ArrayLists.ArrayList.Add`: on a zero-length array the contract states only the failure, the size of 1 and the length 0. The list invariant does not hold afterwards, so the contract states nothing more about the state.
- The private helpers are split differently from the source. The relinking of `add(index, newNode)` and the second branch of `remove(index)` are the methods `LinkAfter` and `Unlink`. `checkIndexBounds`, `checkIndex` and `checkIfEmpty` are functions returning an `Outcome`.
- The `List`, `Queue`, `Stack` and `BinarySearchTree` interfaces are not part of this model.
- `FileReaders`, `FileStats` and `RandomFieldComparator` are not modelled. They are file I/O and reflection, not container logic.
- `StackTest` is not modelled as a JUnit class. Its scenarios are the methods `PushAndPopElement`, `PopOnEmptyStack`, `PopOnEmptyStackAfterRemoveElements`, `SizeIsZeroOnEmptyStack` and `SizeAfterPushesAndPops`.
