# Grid path finders and hand-written containers, in Dafny

This project models the path-finding core of *EstructurasDatosProyecto*, a Java teaching project
about data structures. It has two halves.

**The containers** are the project's own. Each linked container is a Dafny `class`. Its ghost
fields `Contents`, `nodes` and `Repr` describe the chain of nodes, and a `Valid()` predicate
keeps that description in step with the real `head`, `tail`, `next`, `prev` and `size` fields.
- `SinglyLinkedList<T>` (`SinglyLinked`) and the `Node<T>` it shares with `StackManual` (`Nodes`).
- `DoublyLinkedList<T>` and `DoublyNode<T>` (`Doubly`).
- `StackManual<T>` (`Stacks`).

Every operation states the new `Contents`. The Java exceptions are modelled as `Failure` or
`Thrown` results that leave the list unchanged.

**The path finders** search a character matrix in which `'#'` is an obstacle. They use the
`DIRECTIONS` order up, down, left, right.
- `MatrixPathFinderNative` (`FinderNative`).
- `MatrixPathFinderWithLists` (`FinderWithLists`). It keeps its visit history in the
  hand-written singly linked list and its found paths in the doubly linked list.
- `MatrixPathFinderWithNativeLists` (`FinderWithNativeLists`). It keeps both in library lists
  and walks them with a `ListIterator`.
- `MatrixPathFinderModern` (`FinderModern`). It runs a breadth-first search over whole partial
  paths and stores the paths it completes in three stores: a list, an id index and length
  groups. It answers stream queries over those records.

`Point` (`Points`) holds the coordinates, with Java's `equals`, `hashCode` and `toString`.

How the searches are modelled:
- The first three finders run the same loop: visited and parent arrays, a work container and
  `reconstructPath`. Only the container discipline differs (`Fifo` for breadth-first, `Lifo`
  for depth-first).
- That loop is written once, imperatively, over `array2` in `PathSearch.Search`. It is proved
  to compute the functional search `GridSearch.Search`.
- `GridSearch` proves what every search promises:
  - the path is empty exactly when `end` cannot be reached;
  - otherwise it is a valid path from `start` to `end` without repeated cells;
  - the breadth-first path is a shortest one;
  - the visit history lists each marked cell once, `start` first.
- Because the search is deterministic, a `findMultiplePaths` that repeats the breadth-first
  search stores `maxPaths` copies of one path, or none. The modern `findMultiplePaths` marks a
  cell when it is first queued, so at most one queued path ever ends at `end`, and it stores
  at most one record whatever `maxPaths` is. Both facts are proved.

The stream operations that the modern finder chains are modelled as functions on sequences
(`Streams`), each with its library guarantees proved:
- `filter`;
- a stable `sorted`, written as an insertion sort;
- `limit`;
- `flatMap`;
- `groupingBy(…, counting())`.

Java's `Integer.toString` is `Decimal.IntToString`. It is proved injective, which makes
`Point.toString` and the path ids of `generatePathId` injective too.

Modelling choices:

- **Time.** `System.currentTimeMillis()`, which the `PathInfo` constructor reads, becomes the
  parameter `now` of `FindMultiplePaths`. A search stores at most one record, so one clock
  reading per search loses nothing.
- **Null.** `null` arguments are `Option` values.
  - A `null` node passed to `addBefore`, `addAfter` or `remove` gives `IllegalArgument`.
  - A negative stream `limit` also gives `IllegalArgument`, because `Stream.limit` throws
    `IllegalArgumentException`.
- **Ties in `getTopVisitedCells`.** These depend on `HashMap` iteration order. Here the entries
  come in the order their cells first occur in the stored paths.
- **Sizes and integers.** Ints and longs are unbounded integers. The exception is
  `Point.hashCode`, which is wrapped to 32 bits (`Points.Wrap32`).
- **The matrix.** It is a `seq<seq<char>>` with at least one row and rows of equal length. The
  constructors read `matrix[0].length`, and cells are indexed as `rows × cols`.
- **The start cell.** `start` must lie inside the matrix, because every search indexes
  `visited[start.row][start.col]`. `end` may lie anywhere.

## Model

| member | source | states |
|---|---|---|
| Points.Equals | src/main/logica/Point.java:14-19 | true exactly for a point with the same row and column; false for `null` and for objects of other classes |
| Points.HashCode | src/main/logica/Point.java:22-24 | `row * 1000 + col` reduced to a 32-bit int, equal to the plain value when that fits |
| Points.Wrap32 | src/main/logica/Point.java:22-24 | the result is a 32-bit int congruent to the argument modulo 2^32, and the argument itself when it fits |
| Points.EqualsConsistentWithHash | src/main/logica/Point.java:14-24 | points that are `equals` have equal hash codes |
| Points.HashCollision | src/main/logica/Point.java:22-24 | (0, 1000) and (1, 0) are different points with one hash code |
| Points.HashInjectiveOnNarrowGrids | src/main/logica/Point.java:22-24 | with columns below 1000 and rows that do not overflow, equal hash codes mean equal points |
| Points.ToString | src/main/logica/Point.java:27-29 | "(row, col)": starts with '(' and ends with ')' |
| Points.ToStringInjective | src/main/logica/Point.java:27-29 | two points with the same rendering are the same point |
| Decimal.IntToString | src/main/logica/Point.java:27-29 | `Integer.toString`: an optional minus sign, then only digits |
| Decimal.NatToStringRoundTrip | src/main/logica/Point.java:27-29 | reading the digits back gives the number |
| Decimal.IntToStringInjective | src/main/logica/Point.java:27-29 | different integers render differently |
| Decimal.IntSplit | src/main/logica/MatrixPathFinderModern.java:124-128 | a rendered integer followed by text that cannot continue a number splits in one way only |
| Nodes.Node.constructor | StackManual.java:26 | the node `new Node<>(value)` that `push` and the singly linked list create (the `Node` class itself is not part of this model): it holds the value and has no successor |
| Stacks.StackManual.constructor | StackManual.java:14-17 | an empty stack |
| Stacks.StackManual.Push | StackManual.java:25-30 | the value goes on top and the rest is unchanged |
| Stacks.StackManual.Pop | StackManual.java:39-48 | `EmptyStack` on an empty stack, which stays unchanged; otherwise the top value is returned and removed |
| Stacks.StackManual.Peek | StackManual.java:57-63 | `EmptyStack` on an empty stack; otherwise the top value, with the stack unchanged |
| Stacks.StackManual.IsEmpty | StackManual.java:69-71 | true exactly when the stack holds nothing |
| Stacks.StackManual.Size | StackManual.java:77-79 | the number of elements |
| Stacks.StackManual.Clear | StackManual.java:86-89 | the stack becomes empty |
| Stacks.StackManual.Contains | StackManual.java:95-104 | true exactly when the value is on the stack |
| Stacks.StackManual.ToArray | StackManual.java:111-122 | a fresh array of the elements, top first |
| Stacks.PushThenPop | StackManual.java:25-48 | a push followed by a pop returns the pushed value and leaves the stack as it was |
| Stacks.PushesThenPops | StackManual.java:25-79 | after `n` pushes onto an empty stack and `m <= n` pops, the size is `n - m` |
| SinglyLinked.SinglyLinkedList.constructor | src/main/estructuras/SinglyLinkedList.java:15-18 | an empty list |
| SinglyLinked.SinglyLinkedList.AddFirst | src/main/estructuras/SinglyLinkedList.java:26-31 | the value is put before the old contents |
| SinglyLinked.SinglyLinkedList.AddLast | src/main/estructuras/SinglyLinkedList.java:39-52 | the value is put after the old contents |
| SinglyLinked.SinglyLinkedList.RemoveFirst | src/main/estructuras/SinglyLinkedList.java:61-70 | `EmptyList` on an empty list, which stays unchanged; otherwise the first element is returned and removed |
| SinglyLinked.SinglyLinkedList.RemoveLast | src/main/estructuras/SinglyLinkedList.java:79-100 | `EmptyList` on an empty list, which stays unchanged; otherwise the last element is returned and removed |
| SinglyLinked.SinglyLinkedList.Get | src/main/estructuras/SinglyLinkedList.java:109-119 | the element at a valid index; otherwise `InvalidIndex(index, size)` |
| SinglyLinked.SinglyLinkedList.IsEmpty | src/main/estructuras/SinglyLinkedList.java:125-127 | true exactly when the list holds nothing |
| SinglyLinked.SinglyLinkedList.Size | src/main/estructuras/SinglyLinkedList.java:133-135 | the number of elements |
| SinglyLinked.SinglyLinkedList.Clear | src/main/estructuras/SinglyLinkedList.java:142-145 | the list becomes empty |
| SinglyLinked.SinglyLinkedList.Contains | src/main/estructuras/SinglyLinkedList.java:151-160 | true exactly when the value is in the list |
| SinglyLinked.SinglyLinkedList.InsertAt | src/main/estructuras/SinglyLinkedList.java:169-188 | for `0 <= index <= size` the value is placed at `index` with all other elements in order; otherwise `InvalidIndex` and no change |
| SinglyLinked.SinglyLinkedList.LinkAfter | src/main/estructuras/SinglyLinkedList.java:179-187 | linking a new node after the node at `k` inserts the value at `k + 1` and keeps the chain valid |
| SinglyLinked.SinglyLinkedList.RemoveAt | src/main/estructuras/SinglyLinkedList.java:197-215 | for a valid index that element is returned and removed; otherwise `InvalidIndex` and no change |
| SinglyLinked.SinglyLinkedList.ToArray | src/main/estructuras/SinglyLinkedList.java:222-233 | a fresh array of the elements in order |
| Doubly.DoublyNode.constructor | src/main/estructuras/DoublyNode.java:9-13 | a node with the data and no neighbours |
| Doubly.DoublyNode.GetData | src/main/estructuras/DoublyNode.java:15-17 | the data |
| Doubly.DoublyNode.SetData | src/main/estructuras/DoublyNode.java:19-21 | the data is replaced and the links are kept |
| Doubly.DoublyNode.GetNext | src/main/estructuras/DoublyNode.java:23-25 | the successor |
| Doubly.DoublyNode.SetNext | src/main/estructuras/DoublyNode.java:27-29 | the successor is replaced and the rest kept |
| Doubly.DoublyNode.GetPrev | src/main/estructuras/DoublyNode.java:31-33 | the predecessor |
| Doubly.DoublyNode.SetPrev | src/main/estructuras/DoublyNode.java:35-37 | the predecessor is replaced and the rest kept |
| Doubly.SetThenGet | src/main/estructuras/DoublyNode.java:15-21 | reading the data after setting it gives the value set |
| Doubly.DoublyLinkedList.constructor | src/main/estructuras/DoublyLinkedList.java:17-21 | an empty list |
| Doubly.DoublyLinkedList.AddFirst | src/main/estructuras/DoublyLinkedList.java:29-41 | the value is put before the old contents and the old nodes follow it |
| Doubly.DoublyLinkedList.AddLast | src/main/estructuras/DoublyLinkedList.java:49-61 | the value is put after the old contents and the old nodes precede it |
| Doubly.DoublyLinkedList.RemoveFirst | src/main/estructuras/DoublyLinkedList.java:70-86 | `EmptyList` on an empty list, which stays unchanged; otherwise the first element is returned and removed |
| Doubly.DoublyLinkedList.RemoveLast | src/main/estructuras/DoublyLinkedList.java:95-111 | `EmptyList` on an empty list, which stays unchanged; otherwise the last element is returned and removed |
| Doubly.DoublyLinkedList.NodeAt | src/main/estructuras/DoublyLinkedList.java:126-140 | both walks, forward from `head` for the first half and backward from `tail` otherwise, reach the node at `index` |
| Doubly.DoublyLinkedList.Get | src/main/estructuras/DoublyLinkedList.java:120-141 | the element at a valid index; otherwise `InvalidIndex(index, size)` |
| Doubly.DoublyLinkedList.IsEmpty | src/main/estructuras/DoublyLinkedList.java:147-149 | true exactly when the list holds nothing |
| Doubly.DoublyLinkedList.Size | src/main/estructuras/DoublyLinkedList.java:155-157 | the number of elements |
| Doubly.DoublyLinkedList.Clear | src/main/estructuras/DoublyLinkedList.java:164-168 | the list becomes empty |
| Doubly.DoublyLinkedList.Contains | src/main/estructuras/DoublyLinkedList.java:174-183 | true exactly when the value is in the list |
| Doubly.DoublyLinkedList.LinkBefore | src/main/estructuras/DoublyLinkedList.java:221-226 | linking a new node before the inner node at `k` inserts the value at `k` and keeps both link directions valid |
| Doubly.DoublyLinkedList.LinkAfter | src/main/estructuras/DoublyLinkedList.java:313-317 | linking a new node after the node at `k` (not the tail) inserts the value at `k + 1` |
| Doubly.DoublyLinkedList.Unlink | src/main/estructuras/DoublyLinkedList.java:339-343 | unlinking the inner node at `k` returns its data and deletes position `k` |
| Doubly.DoublyLinkedList.InsertAt | src/main/estructuras/DoublyLinkedList.java:192-227 | for `0 <= index <= size` the value is placed at `index` with all other elements in order; otherwise `InvalidIndex` and no change |
| Doubly.DoublyLinkedList.RemoveAt | src/main/estructuras/DoublyLinkedList.java:236-268 | for a valid index that element is returned and removed; otherwise `InvalidIndex` and no change |
| Doubly.DoublyLinkedList.AddBefore | src/main/estructuras/DoublyLinkedList.java:276-293 | `IllegalArgument` for `null`; otherwise the value goes immediately before the node |
| Doubly.DoublyLinkedList.AddAfter | src/main/estructuras/DoublyLinkedList.java:301-318 | `IllegalArgument` for `null`; otherwise the value goes immediately after the node |
| Doubly.DoublyLinkedList.Remove | src/main/estructuras/DoublyLinkedList.java:326-344 | `IllegalArgument` for `null`; otherwise the node's element is returned and removed from its position |
| Doubly.DoublyLinkedList.GetNode | src/main/estructuras/DoublyLinkedList.java:352-370 | the node at a valid index; otherwise `InvalidIndex(index, size)` |
| Doubly.DoublyLinkedList.GetFirstNode | src/main/estructuras/DoublyLinkedList.java:375-377 | the first node, `null` when empty |
| Doubly.DoublyLinkedList.GetLastNode | src/main/estructuras/DoublyLinkedList.java:382-384 | the last node, `null` when empty |
| Doubly.DoublyLinkedList.ToArray | src/main/estructuras/DoublyLinkedList.java:391-402 | a fresh array of the elements in order |
| Sequences.Insert | src/main/estructuras/DoublyLinkedList.java:192-227 | placing an element at position `k`, element by element |
| Sequences.Delete | src/main/estructuras/DoublyLinkedList.java:236-268 | removing the element at position `k`, element by element |
| Sequences.Copies | src/main/logica/MatrixPathFinderWithLists.java:116-126 | `n` copies of one value |
| Grid.CellInBounds | src/main/logica/MatrixPathFinderNative.java:96-98 | `isValid` accepts exactly the cells of the matrix |
| Grid.NeighborAdjacent | src/main/logica/MatrixPathFinderNative.java:13 | each `DIRECTIONS` neighbour is adjacent, and the four neighbours are distinct |
| Grid.DirectionOf | src/main/logica/MatrixPathFinderNative.java:13 | every adjacent cell is the neighbour in one of the four directions |
| Grid.PrefixValid | src/main/logica/MatrixPathFinderNative.java:103-114 | a prefix of a valid path is a valid path to its last cell |
| Grid.CellCount | src/main/logica/MatrixPathFinderNative.java:27-28 | the matrix has `rows * cols` cells |
| GridSearch.FoundFacts | src/main/logica/MatrixPathFinderNative.java:77-87 | the direction loop adds distinct, unmarked, passable neighbours, in direction order, and skips none of them |
| GridSearch.TakeRest | src/main/logica/MatrixPathFinderNative.java:69-70 | `poll` (FIFO) or `pop` (LIFO) removes exactly one cell from the container |
| GridSearch.StepProgress | src/main/logica/MatrixPathFinderNative.java:69-87 | each turn of the loop marks a new cell or shrinks the container, so the search ends |
| GridSearch.PathToFacts | src/main/logica/MatrixPathFinderNative.java:103-114 | following parents back from a marked cell gives a valid path from `start` to it without repeats |
| GridSearch.HeadIsNearest | src/main/logica/MatrixPathFinderNative.java:61-91 | in a FIFO search no path to the head of the queue is shorter than its depth |
| GridSearch.RunCorrect | src/main/logica/MatrixPathFinderNative.java:69-88 | from any state that satisfies the loop invariant, the loop keeps the search's promise |
| GridSearch.SearchCorrect | src/main/logica/MatrixPathFinderNative.java:25-91 | the path is empty exactly when `end` is unreachable; otherwise it is valid and has no repeats; the BFS path is shortest; the history lists each marked cell once, `start` first |
| GridSearch.SearchSame | src/main/logica/MatrixPathFinderNative.java:33-38 | when `start == end` the path and the history are both `[start]` |
| GridSearch.SearchBound | src/main/logica/MatrixPathFinderNative.java:27-28 | a search marks, records and removes at most `rows * cols` cells |
| PathSearch.TryNeighbor | src/main/logica/MatrixPathFinderNative.java:78-86 | the guarded body of the direction loop adds the neighbour to the container, the marks, the parents and the history exactly when it is admitted |
| PathSearch.Round | src/main/logica/MatrixPathFinderNative.java:77-87 | one round of the direction loop keeps the arrays in step with the functional state |
| PathSearch.ExploreNeighbors | src/main/logica/MatrixPathFinderNative.java:77-87 | the whole direction loop produces the functional expansion of the cell |
| PathSearch.ReconstructPath | src/main/logica/MatrixPathFinderNative.java:103-114 | collecting parents back from `end` and reversing gives the start-to-`end` path of the parent tree |
| PathSearch.Reversed | src/main/logica/MatrixPathFinderNative.java:112 | `Collections.reverse`: element `i` is element `n - 1 - i` of the input |
| PathSearch.Search | src/main/logica/MatrixPathFinderNative.java:61-91 | the array-based loop returns exactly the path and the history of the functional search |
| FinderNative.MatrixPathFinderNative.constructor | src/main/logica/MatrixPathFinderNative.java:15-19 | `rows` and `cols` are the matrix dimensions |
| FinderNative.MatrixPathFinderNative.FindPathDFS | src/main/logica/MatrixPathFinderNative.java:25-55 | the DFS path is empty exactly when `end` is unreachable, otherwise valid without repeats; `[start]` when `start == end` |
| FinderNative.MatrixPathFinderNative.FindPathBFS | src/main/logica/MatrixPathFinderNative.java:61-91 | the same, and no valid path from `start` to `end` is shorter |
| FinderWithLists.MatrixPathFinderWithLists.constructor | src/main/logica/MatrixPathFinderWithLists.java:22-28 | both lists start empty and separate |
| FinderWithLists.MatrixPathFinderWithLists.Find | src/main/logica/MatrixPathFinderWithLists.java:34-110 | the history list holds exactly the cells marked, in order, `start` first, no repeats; a path found is appended to `foundPaths` and is valid; empty exactly when unreachable |
| FinderWithLists.MatrixPathFinderWithLists.Record | src/main/logica/MatrixPathFinderWithLists.java:76-83 | after clearing and appending cell by cell, the history list holds exactly the given cells |
| FinderWithLists.MatrixPathFinderWithLists.FindPathDFS | src/main/logica/MatrixPathFinderWithLists.java:34-69 | the depth-first search with the given history and found-paths effects |
| FinderWithLists.MatrixPathFinderWithLists.FindPathBFS | src/main/logica/MatrixPathFinderWithLists.java:75-110 | the breadth-first search with the given history and found-paths effects |
| FinderWithLists.MatrixPathFinderWithLists.FindMultiplePaths | src/main/logica/MatrixPathFinderWithLists.java:116-126 | `foundPaths` ends as `maxPaths` copies of the BFS path when `end` is reachable and empty otherwise; the history is that of the last search |
| FinderWithLists.MatrixPathFinderWithLists.GetNextPath | src/main/logica/MatrixPathFinderWithLists.java:147-152 | `null` for a null node or the last one; otherwise the next path of the list |
| FinderWithLists.MatrixPathFinderWithLists.GetPreviousPath | src/main/logica/MatrixPathFinderWithLists.java:159-164 | `null` for a null node or the first one; otherwise the previous path of the list |
| FinderWithNativeLists.MatrixPathFinderWithNativeLists.constructor | src/main/logica/MatrixPathFinderWithNativeLists.java:22-28 | both lists start empty |
| FinderWithNativeLists.MatrixPathFinderWithNativeLists.Find | src/main/logica/MatrixPathFinderWithNativeLists.java:34-110 | the history is replaced by the marked cells in order; a path found is appended; empty exactly when unreachable, otherwise valid without repeats |
| FinderWithNativeLists.MatrixPathFinderWithNativeLists.FindPathDFS | src/main/logica/MatrixPathFinderWithNativeLists.java:34-69 | the depth-first search with its history and found-paths effects |
| FinderWithNativeLists.MatrixPathFinderWithNativeLists.FindPathBFS | src/main/logica/MatrixPathFinderWithNativeLists.java:75-110 | the breadth-first search with its history and found-paths effects |
| FinderWithNativeLists.MatrixPathFinderWithNativeLists.FindMultiplePaths | src/main/logica/MatrixPathFinderWithNativeLists.java:116-126 | `maxPaths` copies of the BFS path when reachable, none otherwise; the history of the last search |
| FinderWithNativeLists.MatrixPathFinderWithNativeLists.ListIterator | src/main/logica/MatrixPathFinderWithNativeLists.java:147-164 | `getFoundPaths().listIterator()`, the iterator that `getNextPath` and `getPreviousPath` take: over the found paths, positioned before the first |
| FinderWithNativeLists.MatrixPathFinderWithNativeLists.GetNextPath | src/main/logica/MatrixPathFinderWithNativeLists.java:147-152 | `null` exactly at the end; otherwise the element after the cursor, which moves forward one |
| FinderWithNativeLists.MatrixPathFinderWithNativeLists.GetPreviousPath | src/main/logica/MatrixPathFinderWithNativeLists.java:159-164 | `null` exactly at the start; otherwise the element before the cursor, which moves back one |
| FinderWithNativeLists.PathIterator.HasNext | src/main/logica/MatrixPathFinderWithNativeLists.java:148 | true exactly when an element follows the cursor |
| FinderWithNativeLists.PathIterator.Next | src/main/logica/MatrixPathFinderWithNativeLists.java:149 | the element after the cursor; the cursor moves forward |
| FinderWithNativeLists.PathIterator.HasPrevious | src/main/logica/MatrixPathFinderWithNativeLists.java:160 | true exactly when an element precedes the cursor |
| FinderWithNativeLists.PathIterator.Previous | src/main/logica/MatrixPathFinderWithNativeLists.java:161 | the element before the cursor; the cursor moves back |
| PathRecords.Equals | src/main/logica/MatrixPathFinderModern.java:48-54 | `PathInfo.equals`: false for `null` and for objects of other classes, true for the same record; otherwise compares ids |
| PathRecords.EqualsEquivalence | src/main/logica/MatrixPathFinderModern.java:48-54 | equality by id is reflexive, symmetric and transitive |
| PathRecords.Summaries | src/main/logica/MatrixPathFinderModern.java:146-155 | one summary per record, in order |
| PathRecords.SummariesFilter | src/main/logica/MatrixPathFinderModern.java:335-343 | summarising and then keeping one length gives the summaries of the records of that length |
| PathRecords.SummariesMembers | src/main/logica/MatrixPathFinderModern.java:146-155 | every record's summary is among the summaries |
| PathRecords.CellIdSplit | src/main/logica/MatrixPathFinderModern.java:124-128 | a cell id followed by text that cannot continue a number determines the cell |
| PathRecords.PathIdInjective | src/main/logica/MatrixPathFinderModern.java:124-128 | different paths have different `generatePathId` ids, for any coordinates |
| PathRecords.PathIdHeads | src/main/logica/MatrixPathFinderModern.java:124-128 | equal ids of non-empty paths share the first cell and the id of the rest |
| PathRecords.FilterAbsent | src/main/logica/MatrixPathFinderModern.java:326-328 | no record has a length that is missing from its grouping |
| PathRecords.GroupAdd | src/main/logica/MatrixPathFinderModern.java:133 | `computeIfAbsent(...).add` keeps the grouping by length of the list with the record appended |
| PathRecords.GroupedUnique | src/main/logica/MatrixPathFinderModern.java:286-289 | a list has only one grouping by length |
| PathRecords.Group | src/main/logica/MatrixPathFinderModern.java:286-289 | `groupingBy(getLength)`: one key per length present, each group the records of that length in list order |
| PathRecords.IdsSnoc | src/main/logica/MatrixPathFinderModern.java:131 | appending a record adds its id to the ids of the list |
| PathRecords.IndexedAdd | src/main/logica/MatrixPathFinderModern.java:130-134 | `addPath` of a record with a new id keeps list, index and groups in agreement |
| PathRecords.SizeIsSumOfGroups | src/main/logica/MatrixPathFinderModern.java:19-22 | in agreeing stores the number of records is the sum of the group sizes |
| Streams.FilterMembers | src/main/logica/MatrixPathFinderModern.java:181-187 | `filter` keeps exactly the elements that pass, none more often than it occurs |
| Streams.FilterOrder | src/main/logica/MatrixPathFinderModern.java:181-200 | `filter` keeps its elements in their order (a subsequence of the input) and every occurrence of a passing element, and no other |
| Streams.SortBy | src/main/logica/MatrixPathFinderModern.java:206-212 | `sorted` is a permutation of its input |
| Streams.SortBySorted | src/main/logica/MatrixPathFinderModern.java:206-212 | the sort orders by the comparator key |
| Streams.SortByStable | src/main/logica/MatrixPathFinderModern.java:206-221 | the sort is stable: the elements of each key keep their order |
| Streams.TopByFacts | src/main/logica/MatrixPathFinderModern.java:295-303 | `sorted(...).limit(n)`: `n` elements (or all), in key order, taken from the input, none keyed above an element left out |
| Streams.TopByStable | src/main/logica/MatrixPathFinderModern.java:299-300 | `sorted(...).limit(n)` is stable: of the elements of one key it keeps the first ones of the input, in input order |
| Streams.Flatten | src/main/logica/MatrixPathFinderModern.java:228-238 | `flatMap(List::stream)`: an element is in the result exactly when it is in one of the lists |
| Streams.Tally | src/main/logica/MatrixPathFinderModern.java:274-281 | `groupingBy(x -> x, counting())`: the keys are the elements, each mapped to its number of occurrences |
| FinderModern.Extend | src/main/logica/MatrixPathFinderModern.java:114-116 | the queued extensions: the path followed by each added neighbour, in order |
| FinderModern.EndCountExtend | src/main/logica/MatrixPathFinderModern.java:113-118 | extending one path by distinct cells gives one path ending at `end` if `end` is among them, none otherwise |
| FinderModern.ExpandFacts | src/main/logica/MatrixPathFinderModern.java:92-120 | expanding a dequeued path that does not end at `end` keeps the queue facts and marks a new cell or queues nothing |
| FinderModern.MarkFacts | src/main/logica/MatrixPathFinderModern.java:117 | marking in-bounds unmarked cells keeps the marks inside the matrix and, when any is marked, leaves fewer unmarked |
| FinderModern.FrontierStart | src/main/logica/MatrixPathFinderModern.java:86-89 | the queue holding `[start]` with nothing marked or stored satisfies the queue facts |
| FinderModern.PathsOf | src/main/logica/MatrixPathFinderModern.java:274-281 | the paths of the records, in order |
| FinderModern.FlattenCount | src/main/logica/MatrixPathFinderModern.java:274-281 | the count of a cell in the flattened paths is the sum of its counts path by path |
| FinderModern.Distinct | src/main/logica/MatrixPathFinderModern.java:308-313 | the entry set's keys: no repeats, exactly the cells that occur |
| FinderModern.Entries | src/main/logica/MatrixPathFinderModern.java:308-313 | `entrySet()`: each cell paired with its count |
| FinderModern.EntriesFacts | src/main/logica/MatrixPathFinderModern.java:308-313 | the entries of distinct keys are exactly the key/count pairs of the map, once each |
| FinderModern.TopEntriesFacts | src/main/logica/MatrixPathFinderModern.java:308-313 | the first `n` entries by count descending: `n` (or all), true counts, distinct cells, descending, no left-out cell counted more |
| FinderModern.TopVisitedFacts | src/main/logica/MatrixPathFinderModern.java:308-313 | the same facts for the entries of the stored paths |
| FinderModern.Pipeline | src/main/logica/MatrixPathFinderModern.java:333-338 | the records `pipelineExample` keeps come from the list |
| FinderModern.PipelineFacts | src/main/logica/MatrixPathFinderModern.java:333-338 | `limit` of the in-range records (or all), stored ones, shortest first, none in range left out shorter than one kept; of each length, the first records in list order |
| FinderModern.PipelineStable | src/main/logica/MatrixPathFinderModern.java:333-338 | for one length: the records of that length the pipeline keeps are a prefix, in list order, of the records of that length in the whole list |
| FinderModern.ShortestStable | src/main/logica/MatrixPathFinderModern.java:299-300 | of the records of one length, the first `n` by length keep the first ones in list order |
| FinderModern.TopShortestFacts | src/main/logica/MatrixPathFinderModern.java:295-303 | the first `n` records by length: `n` (or all), part of the list, shortest first, none longer than one left out; of each length, the first records in list order |
| FinderModern.PipelineSummaryFacts | src/main/logica/MatrixPathFinderModern.java:333-345 | the same facts for the summaries of those records |
| FinderModern.PipelineSummaryStable | src/main/logica/MatrixPathFinderModern.java:336-344 | the summaries of one length that `pipelineExample` returns are the first ones of that length among the summaries of all records, in list order |
| FinderModern.PipelineSummaryOrder | src/main/logica/MatrixPathFinderModern.java:336-344 | for every length together: the summaries of that length returned are a prefix, in list order, of the summaries of that length among all records |
| FinderModern.MatrixPathFinderModern.constructor | src/main/logica/MatrixPathFinderModern.java:67-75 | all four stores start empty and agree |
| FinderModern.MatrixPathFinderModern.AddPath | src/main/logica/MatrixPathFinderModern.java:130-134 | the record is appended, indexed under its id and appended to its length group; with a new id the stores still agree and both lookups find it |
| FinderModern.MatrixPathFinderModern.Explore | src/main/logica/MatrixPathFinderModern.java:106-120 | the direction loop queues the path extended by each unmarked passable neighbour and marks those neighbours |
| FinderModern.MatrixPathFinderModern.Round | src/main/logica/MatrixPathFinderModern.java:107-119 | one direction: the queue and the marks grow by that neighbour exactly when it is admitted |
| FinderModern.MatrixPathFinderModern.FindMultiplePaths | src/main/logica/MatrixPathFinderModern.java:80-122 | afterwards the stores agree, the marks are cells of the matrix, and at most one record and at most `maxPaths` are stored, each a valid path from `start` to `end` stamped `now`; `[start]` is the one record when `start == end` and `maxPaths > 0` |
| FinderModern.MatrixPathFinderModern.Step | src/main/logica/MatrixPathFinderModern.java:91-121 | one turn of the loop keeps its invariant and decreases the unmarked cells or the queue |
| FinderModern.MatrixPathFinderModern.Store | src/main/logica/MatrixPathFinderModern.java:95-102 | storing a completed path with a new id keeps the invariant for the rest of the queue |
| FinderModern.MatrixPathFinderModern.Advance | src/main/logica/MatrixPathFinderModern.java:105-120 | expanding a path keeps the invariant and decreases the unmarked cells or the queue |
| FinderModern.MatrixPathFinderModern.FindPathById | src/main/logica/MatrixPathFinderModern.java:319-321 | in agreeing stores a record is found exactly when one with that id is stored, and it is that record |
| FinderModern.MatrixPathFinderModern.FindPathsByLength | src/main/logica/MatrixPathFinderModern.java:326-328 | in agreeing stores, the records of that length in list order, empty when there are none |
| FinderModern.MatrixPathFinderModern.TransformPathsToSummary | src/main/logica/MatrixPathFinderModern.java:146-155 | one summary per record, in order, with its id, first cell, last cell and length |
| FinderModern.MatrixPathFinderModern.FilterPathsByLength | src/main/logica/MatrixPathFinderModern.java:181-187 | exactly the records with length in `[minLength, maxLength]`, in list order, each as often as it is stored |
| FinderModern.MatrixPathFinderModern.FilterPathsContainingPoint | src/main/logica/MatrixPathFinderModern.java:193-200 | nothing for `null`; otherwise exactly the records whose path contains the point, in list order, each as often as it is stored |
| FinderModern.MatrixPathFinderModern.SortPathsByLengthAndTime | src/main/logica/MatrixPathFinderModern.java:206-212 | a permutation of the records, shorter first and newer first among equal lengths, stable for equal keys |
| FinderModern.MatrixPathFinderModern.SortPathsByTimestampDesc | src/main/logica/MatrixPathFinderModern.java:217-221 | a permutation of the records, newest first, stable for equal timestamps |
| FinderModern.MatrixPathFinderModern.UnionOfVisitedCells | src/main/logica/MatrixPathFinderModern.java:228-238 | nothing for `null`; otherwise exactly the cells of some path |
| FinderModern.MatrixPathFinderModern.IntersectionOfPaths | src/main/logica/MatrixPathFinderModern.java:244-254 | nothing for `null` or no paths; otherwise exactly the cells in every path |
| FinderModern.MatrixPathFinderModern.DifferenceOfPaths | src/main/logica/MatrixPathFinderModern.java:260-268 | with `null` as empty, exactly the cells of the first path not in the second |
| FinderModern.MatrixPathFinderModern.CountCellFrequency | src/main/logica/MatrixPathFinderModern.java:274-281 | the keys are the cells of the stored paths, each mapped to its number of occurrences across them |
| FinderModern.MatrixPathFinderModern.GroupPathsByLength | src/main/logica/MatrixPathFinderModern.java:286-289 | the grouping of the records by length; in agreeing stores it equals `pathsByLength` |
| FinderModern.MatrixPathFinderModern.GetTopShortestPaths | src/main/logica/MatrixPathFinderModern.java:295-303 | nothing for `n <= 0`; otherwise `n` records (or all), part of the list, shortest first, none longer than one left out, and of each length the first records in list order (a stable sort) |
| FinderModern.MatrixPathFinderModern.GetTopVisitedCells | src/main/logica/MatrixPathFinderModern.java:308-313 | `IllegalArgument` for negative `n`; otherwise `n` cells (or all) with their true counts, distinct, most visited first, none left out visited more |
| FinderModern.MatrixPathFinderModern.PipelineExample | src/main/logica/MatrixPathFinderModern.java:333-345 | `IllegalArgument` for negative `limit`; otherwise summaries of `limit` in-range records (or all), shortest first, none in range left out shorter, and of each length the first summaries in list order (a stable sort) |

## Left out

- Printing: `printMatrixWithPath` and `printVisitHistory`. These are output only.
- The `toString` of the lists, of `PathInfo` and of `PathSummary`, and the `hashCode` of
  `PathInfo`. These are text formatting and hashing that no modelled operation relies on. The
  rendering of `Point` is modelled.
- The performance comparators (`PerformanceComparator`, `ListPerformanceComparator`,
  `CollectionsPerformanceComparator`). They time code; there is no behaviour to prove.
- The getters and the `Collections.unmodifiable…` wrappers. The model returns values, which
  cannot be mutated anyway.
- `QueueManual` is not part of this model. It and `StackManual` serve as the work containers of
  `MatrixPathFinderWithLists`. That search is modelled with the container as a sequence
  (`Fifo`/`Lifo`). `StackManual` itself is modelled on its own in `Stacks`.
- FinderWithLists.MatrixPathFinderWithLists.Find: the search appends each marked cell to
  `visitHistory` while it runs; the model records the finished history after the search. The
  final list is the same.
- FinderWithNativeLists.MatrixPathFinderWithNativeLists.ListIterator: the iterator walks a
  snapshot of the list. The `ConcurrentModificationException` of a list changed during
  iteration is not modelled.
- FinderModern.MatrixPathFinderModern.FindMultiplePaths: it does not prove that a record is
  stored when `end` is reachable, nor that the stored path has no repeated cells. It proves
  soundness, the bound of at most one record, and the `start == end` case.
- FinderModern.MatrixPathFinderModern.GetTopVisitedCells: cells with equal counts come in the
  order the cells first occur, not in `HashMap` iteration order.
- FinderModern.MatrixPathFinderModern.TransformPathsToSummary: it requires every record to have
  a non-empty path. Java would throw on `get(0)` of an empty path, which a stored record never
  is.
- FinderModern.MatrixPathFinderModern.PipelineExample: it has the same requirement, for the
  same reason.
- `null` elements inside lists, e.g. a `null` path inside `unionOfVisitedCells`'s argument, are
  not modelled. Java throws a `NullPointerException` there.
- Integer widths: `int` sizes and counters and `long` timestamps are unbounded. Only
  `Point.hashCode` is reduced to 32 bits.
- Object identity and aliasing of the matrix and of returned lists. The matrix and the paths
  are immutable values here.
