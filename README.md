# algo-practice core, modelled in Dafny

This project models the core of the Go repository `algo-practice` and proves properties of the model:

- **Containers.** The generic stack and queue of `Item`s. Both refuse empty items.
- **Transporters.** The adapters that let a search use either container.
- **Graph algorithms over adjacency maps.**
  - depth-first and breadth-first search;
  - `HasPath`;
  - `ConnectedComponentsCount`;
  - the builder that turns edge lists into adjacency maps.
- **A singly linked list** with head and tail pointers.
- **Four memoised recursions:** `Fib`, `GridTraveler`, `CanSum` and `HowSum`.

The model has one module per source file:

| module | file |
|---|---|
| `Common` | `common.dfy` |
| `SimpleStack` | `simple_stack.dfy` |
| `SimpleQueue` | `simple_queue.dfy` |
| `GraphTraversal` | `graph_traversal.dfy` |
| `GraphPaths` (the graph vocabulary) | `graph_paths.dfy` |
| `Dfs` | `dfs.dfy` |
| `Bfs` | `bfs.dfy` |
| `HasPathSearch` | `has_path.dfy` |
| `ComponentsCount` | `connected_components.dfy` |
| `GraphEdge` | `graph_edge.dfy` |
| `LinkedLists` | `linked_list.dfy` |
| `Fibonacci` | `fib.dfy` |
| `GridTraveling` | `grid_traveler.dfy` |
| `CanSumming` | `can_sum.dfy` |
| `HowSumming` | `how_sum.dfy` |

How the Go constructs are represented:

- **Items.** The `Item` interface becomes a datatype holding a value and an emptiness flag.
  - An `ItemFactory` is given by its sentinel test. Every factory in the repository keeps the value, and the factories differ only in which value they call empty.
  - `StringItemFactory` treats `""` as empty. `IntItemFactory` treats `0` as empty.
- **Errors.** Go's `error` becomes `Option<Error>` (`None` is nil). An `(item, error)` pair becomes `Result<Item<T>>`.
- **Stack, queue and transporters.** The stack and queue are classes over a sequence of items. The `Transporter` interface is a datatype with one case per adapter. Each method states the transporter's new pending items.
- **Graphs.** A graph is `map<T, seq<T>>`, and a visited set is `set<T>`. A loop over Go's map is an arbitrary choice among the keys not yet taken (`:|`).
- **Memo tables.** Each package-level memo table becomes the field of a `Memo` object. Each recursive function is a recursive method on that object, and it is proved equal to a mathematical definition whatever the memo held.
- **Linked list.** The list is a class with ghost `nodes` (the spine) and `contents` (the values along it).

Each loop is proved against a specification function or invariant:

- **Search loops.** Depth-first search, breadth-first search, `HasPath` and the components count each carry an invariant. The invariant keeps a witness path for every visited node. When the loop ends, a closure argument shows that nothing reachable was missed.

## Model

| member | source | states |
|---|---|---|
| Common.ItemFactory.Wrap | data-structures/common/item.go:15-16 | the wrapped item keeps the value, and it is empty exactly when the value is the factory's sentinel |
| Common.StringItemFactory | graph/has-path/has_path.go:28-40 | a string item is empty exactly when the string is empty |
| Common.IntItemFactory | graph/connected-components-count/connected_components_count.go:28-36 | an int item is empty exactly when the value is 0 |
| SimpleStack.Stack.constructor | data-structures/simple-stack/simple_stack.go:23-27 | a new stack is empty |
| SimpleStack.Stack.Push | data-structures/simple-stack/simple_stack.go:31-38 | an empty item is refused with an error and the stack is unchanged; otherwise the item goes on top and the result is nil |
| SimpleStack.Stack.Pop | data-structures/simple-stack/simple_stack.go:42-51 | an empty stack gives the "stack is empty" error and stays empty; otherwise the top item is returned and removed, and the rest is untouched |
| SimpleStack.Stack.Peek | data-structures/simple-stack/simple_stack.go:54-61 | the zero item exactly when the stack is empty, otherwise the top item (never an empty one) |
| SimpleStack.Stack.IsEmpty | data-structures/simple-stack/simple_stack.go:64-66 | true exactly when there are no elements |
| SimpleStack.Stack.Size | data-structures/simple-stack/simple_stack.go:69-71 | the number of elements |
| SimpleStack.Stack.Clear | data-structures/simple-stack/simple_stack.go:74-76 | afterwards the stack is empty |
| SimpleStack.Stack.ToSlice | data-structures/simple-stack/simple_stack.go:79-81 | the elements in push order, none of them empty |
| SimpleStack.Stack.Contains | data-structures/simple-stack/simple_stack.go:85-96 | true exactly when the probe is not empty and some element Equals it |
| SimpleStack.PushThenPop | data-structures/simple-stack/simple_stack.go:31-51 | LIFO: a successful push followed by a pop returns the pushed item and restores the previous contents |
| SimpleStack.PushPopScenario | data-structures/simple-stack/simple_stack.go:31-51 | pushing 1 then 2 pops 2, then 1, then fails with the empty-stack error |
| SimpleQueue.Queue.constructor | data-structures/simple-queue/simple_queue.go:23-27 | a new queue is empty |
| SimpleQueue.Queue.Enqueue | data-structures/simple-queue/simple_queue.go:31-38 | an empty item is refused with an error and the queue is unchanged; otherwise the item goes at the end |
| SimpleQueue.Queue.Dequeue | data-structures/simple-queue/simple_queue.go:42-51 | an empty queue gives the "queue is empty" error; otherwise the front item is returned and removed |
| SimpleQueue.Queue.Peek | data-structures/simple-queue/simple_queue.go:54-61 | the zero item exactly when the queue is empty, otherwise the front item |
| SimpleQueue.Queue.IsEmpty | data-structures/simple-queue/simple_queue.go:64-66 | true exactly when there are no elements |
| SimpleQueue.Queue.Size | data-structures/simple-queue/simple_queue.go:69-71 | the number of elements |
| SimpleQueue.Queue.Clear | data-structures/simple-queue/simple_queue.go:74-76 | afterwards the queue is empty |
| SimpleQueue.Queue.ToSlice | data-structures/simple-queue/simple_queue.go:79-81 | the elements in enqueue order, none of them empty |
| SimpleQueue.Queue.Contains | data-structures/simple-queue/simple_queue.go:85-96 | true exactly when the probe is not empty and some element Equals it |
| SimpleQueue.EnqueueTwiceDequeueTwice | data-structures/simple-queue/simple_queue.go:31-51 | FIFO: after enqueuing a then b on an empty queue, two dequeues give a then b and leave it empty |
| SimpleQueue.RefusalScenario | data-structures/simple-queue/simple_queue.go:31-51 | the empty string item is refused, and a dequeue of the empty queue fails, both without changing the queue |
| GraphTraversal.StackTransporter.constructor | graph/graph_traversal.go:34-37 | a new stack transporter owns a fresh empty stack and keeps the factory |
| GraphTraversal.StackTransporter.Next | graph/graph_traversal.go:39-41 | Pop of the underlying stack: empty gives EmptyContainer, otherwise the last item is taken |
| GraphTraversal.StackTransporter.Add | graph/graph_traversal.go:43-45 | wraps the value with the factory and pushes it; fails exactly when the wrapped item is empty |
| GraphTraversal.StackTransporter.IsEmpty | graph/graph_traversal.go:47-49 | true exactly when the stack is empty |
| GraphTraversal.QueueTransporter.constructor | graph/graph_traversal.go:57-60 | a new queue transporter owns a fresh empty queue and keeps the factory |
| GraphTraversal.QueueTransporter.Next | graph/graph_traversal.go:62-64 | Dequeue of the underlying queue: empty gives EmptyContainer, otherwise the first item is taken |
| GraphTraversal.QueueTransporter.Add | graph/graph_traversal.go:66-68 | wraps the value and enqueues it; fails exactly when the wrapped item is empty |
| GraphTraversal.QueueTransporter.IsEmpty | graph/graph_traversal.go:70-72 | true exactly when the queue is empty |
| GraphTraversal.Transporter.Add | graph/graph_traversal.go:17-26 | the interface's Add: the pending items grow by the wrapped value, or stay the same with InvalidElement when it is empty |
| GraphTraversal.Transporter.Next | graph/graph_traversal.go:17-26 | the interface's Next: EmptyContainer when nothing is pending; otherwise the last pending item (stack) or the first (queue) is taken |
| GraphTraversal.Transporter.IsEmpty | graph/graph_traversal.go:17-26 | true exactly when nothing is pending |
| GraphTraversal.NextTakesOne | graph/graph_traversal.go:39-64 | whichever strategy is used, a successful Next removes exactly the item it returns |
| GraphTraversal.NewTransporter | graph/graph_traversal.go:75-84 | StackTraversal gives a stack transporter and QueueTraversal a queue transporter, each empty and with the factory; any other strategy gives nil |
| GraphTraversal.StackTransporterIsLifo | graph/graph_traversal.go:39-45 | adding a then b to a stack transporter gives back b, then a, then EmptyContainer |
| GraphTraversal.QueueTransporterIsFifo | graph/graph_traversal.go:62-68 | adding a then b to a queue transporter gives back a, then b, then EmptyContainer |
| GraphPaths.Neighbours | graph/bfs/bfs.go:67 | Go's `graph[current]`: the listed neighbours of a key and the empty list for a missing key |
| GraphPaths.ExtendPaths | graph/dfs/dfs.go:67-74 | after visiting `current`, each unvisited neighbour gets the witness path of `current` plus itself, and existing paths are kept |
| GraphPaths.DistinctCount | graph/bfs/bfs_test.go:61-72 | a list without repeats has as many elements as the set it lists |
| GraphPaths.ExtendPath | graph/bfs/bfs.go:64-71 | a path to v extended by a listed neighbour of v is a path to that neighbour |
| GraphPaths.KeyEndMakesKeyPath | graph/dfs/dfs.go:60-68 | a path that ends at a key passes through keys only, since every node before the end has an edge out |
| GraphPaths.ReachSetHasKey | graph/connected-components-count/connected_components_count.go:55-58 | a key belongs to its own component |
| GraphPaths.ExtendKeyPath | graph/has-path/has_path.go:81-92 | a path through keys extended by a key neighbour is again a path through keys, ending at that neighbour |
| GraphPaths.ClosedHoldsPath | graph/bfs/bfs.go:53-72 | a path that starts inside a set closed under edges stays inside it |
| GraphPaths.KeyClosedHoldsKeyPath | graph/has-path/has_path.go:73-97 | a path through keys that starts inside a set closed under key edges stays inside it |
| GraphPaths.ReachableTrans | graph/connected-components-count/connected_components_count.go:60-73 | reachability is transitive |
| GraphPaths.ReachableSym | graph/connected-components-count/connected_components_count.go:60-73 | in a symmetric graph, reachability is symmetric |
| GraphPaths.SameComponent | graph/connected-components-count/connected_components_count.go:54-58 | when reachability between keys is symmetric, every key reached from k has the same reach set as k |
| GraphPaths.SymmetricIsReachSymmetric | graph/connected-components-count/connected_components_count.go:60-73 | a symmetric graph has symmetric reachability and only keys as neighbours, so the exact-count results below cover it |
| GraphPaths.AllNeighboursKeysReach | graph/dfs/dfs.go:60-62 | when every listed neighbour is a key, reaching through keys and reaching are the same |
| GraphPaths.PushedItems | graph/dfs/dfs.go:70-74 | the items pushed for a neighbour list wrap exactly its unvisited, non-sentinel neighbours |
| Dfs.PushUnvisited | graph/dfs/dfs.go:70-74 | the stack grows by the wrapped unvisited neighbours in list order; pushes of empty items are refused |
| Dfs.SkipKeepsInv | graph/dfs/dfs.go:60-65 | skipping a non-key or an already visited node keeps the search invariant |
| Dfs.VisitKeepsInv | graph/dfs/dfs.go:67-74 | visiting a new key keeps the invariant: it is appended to the response with a witness path, and its neighbours are pushed |
| Dfs.DeepFirstSearch | graph/dfs/dfs.go:42-77 | a sentinel or missing start gives []; otherwise the start comes first, nothing repeats, every node returned is a key reachable through keys and not a sentinel, and with no sentinel keys every such key is returned |
| Bfs.EnqueueUnvisited | graph/bfs/bfs.go:67-71 | the queue grows by the wrapped unvisited neighbours in list order |
| Bfs.SkipKeepsInv | graph/bfs/bfs.go:60-62 | skipping a visited node keeps the search invariant |
| Bfs.VisitKeepsInv | graph/bfs/bfs.go:64-71 | visiting a new node keeps the invariant, with a witness path for it and its neighbours enqueued |
| Bfs.InvAtEnd | graph/bfs/bfs.go:53-73 | when the queue is empty, the response is reachable from the start, and in the complete case everything reachable is in it |
| Bfs.LevelStart | graph/bfs/bfs.go:50-71 | after the start is dequeued, the queue holds exactly its neighbours, which is the level invariant at its beginning |
| Bfs.LevelSkip | graph/bfs/bfs.go:60-62 | skipping a visited node keeps the level invariant |
| Bfs.LevelVisit | graph/bfs/bfs.go:64-71 | visiting a node keeps the level invariant: the start's neighbours leave the queue before anything enqueued later |
| Bfs.BreadthFirstSearch | graph/bfs/bfs.go:42-74 | a sentinel or missing start gives []; otherwise the start comes first, nothing repeats, only reachable non-sentinel nodes are returned, all of them when no node is a sentinel, and every direct neighbour of the start precedes every other node |
| Bfs.SameNodesAsDepthFirst | graph/bfs/bfs.go:42-74 | when every neighbour is a key and no node is a sentinel, breadth-first and depth-first search return the same set of nodes |
| Bfs.SixNodesAreSix | graph/bfs/bfs_test.go:61-72 | the test graph's node list has six distinct nodes |
| Bfs.SixNodeGraphHasNoSentinel | graph/bfs/bfs_test.go:61-72 | no node of the test graph is the empty string |
| Bfs.SixNodeGraphReach | graph/bfs/bfs_test.go:61-72 | exactly A to F are reachable from A in the test graph |
| Bfs.SixNodeScenario | graph/bfs/bfs_test.go:61-72 | searching the test graph from A returns A first and then exactly the six nodes |
| HasPathSearch.NextKeepsInv | graph/has-path/has_path.go:74-78 | taking the next item starts the scan of a visited node |
| HasPathSearch.AddKeepsInv | graph/has-path/has_path.go:90-93 | marking and adding an unvisited key neighbour keeps the invariant, with a witness path |
| HasPathSearch.ScanDoneKeepsInv | graph/has-path/has_path.go:81-96 | a scan that reached every key neighbour of the current node is complete |
| HasPathSearch.InvAtEnd | graph/has-path/has_path.go:73-98 | once nothing is pending, dst cannot be reached through keys |
| HasPathSearch.VisitNeighbour | graph/has-path/has_path.go:83-95 | a non-key is skipped; dst returns true with a path through keys; an unvisited key is marked and added, and a failed add returns the error with a path to the sentinel |
| HasPathSearch.RoundKeepsScanInv | graph/has-path/has_path.go:81-96 | a round that goes on extends the scanned prefix of the neighbour list |
| HasPathSearch.ScanInvAtEnd | graph/has-path/has_path.go:81-96 | after the whole neighbour list is scanned, the search invariant holds with nothing being scanned |
| HasPathSearch.ScanRound | graph/has-path/has_path.go:81-96 | one round of the neighbour loop either stops with a result or keeps the scan invariant |
| HasPathSearch.ScanNeighbours | graph/has-path/has_path.go:81-96 | the neighbour loop stops at dst (with a path) or at a failed add (with a path to the sentinel), or it completes the scan of the current node |
| HasPathSearch.Explore | graph/has-path/has_path.go:73-98 | true only when dst is reachable through keys; an error only when some key reachable from src is a sentinel; otherwise false, and dst is not reachable |
| HasPathSearch.HasPath | graph/has-path/has_path.go:47-99 | false, nil when src or dst is not a key; true when they are equal; false, nil for an unknown strategy; otherwise, without an error, true exactly when dst is reachable through keys; an error only when a reachable key is a sentinel, so never without sentinel keys |
| HasPathSearch.SameAnswerBothStrategies | graph/has-path/has_path_test.go:113-133 | without sentinel keys, stack and queue traversal give the same answer: reachability through keys |
| ComponentsCount.AddedItems | graph/connected-components-count/connected_components_count.go:67-72 | the items added for a neighbour list wrap exactly its first occurrences of unvisited, non-sentinel neighbours, and nothing is added when all are visited |
| ComponentsCount.MarkAndAdd | graph/connected-components-count/connected_components_count.go:67-72 | every neighbour is marked visited, and the pending items grow by the wrapped new ones; add errors are ignored |
| ComponentsCount.FloodStep | graph/connected-components-count/connected_components_count.go:60-73 | one Next plus the neighbour loop keeps the flood invariant, and the unmarked part of the graph shrinks whenever new nodes are marked |
| ComponentsCount.FloodEnd | graph/connected-components-count/connected_components_count.go:60-73 | when the transporter is empty, the flood has marked exactly the reach set of its start |
| ComponentsCount.Flood | graph/connected-components-count/connected_components_count.go:55-73 | the inner loop ends with nothing pending and no error; it marks the start, and only nodes of the graph; when every neighbour is a key, reachability is symmetric and no key is a sentinel, it marks exactly the start's component |
| ComponentsCount.CountStep | graph/connected-components-count/connected_components_count.go:54-73 | counting an unvisited key adds exactly one new component, its reach set |
| ComponentsCount.ScanKey | graph/connected-components-count/connected_components_count.go:54-74 | one turn of the range loop: an unvisited key adds exactly one to the count and is marked along with what its flood marks; a visited key leaves the count and the visited set unchanged; the scan invariant is kept |
| ComponentsCount.ScanEnd | graph/connected-components-count/connected_components_count.go:54-77 | after all keys: the count is between 1 and the number of keys for a non-empty graph, and, when reachability is symmetric and no key is a sentinel, it equals the number of components |
| ComponentsCount.CountComponents | graph/connected-components-count/connected_components_count.go:52-77 | the range loop over the keys returns no error and a count of at most the number of keys (at least 1 when there are keys); it is the number of components when every neighbour is a key, reachability is symmetric and no key is a sentinel |
| ComponentsCount.ConnectedComponentsCount | graph/connected-components-count/connected_components_count.go:42-78 | 0 for an empty graph or an unknown strategy, otherwise at least 1; never an error; the number of components when every neighbour is a key, reachability between keys is symmetric (every symmetric graph, every strongly connected one) and no key is a sentinel, whichever strategy |
| ComponentsCount.CycleStep | graph/connected-components-count/connected_components_count_test.go:142-150 | each key of the test graph 1 -> 2 -> 3 -> 1 reaches the next key |
| ComponentsCount.CycleReachesAll | graph/connected-components-count/connected_components_count_test.go:142-150 | in that graph every key reaches every key |
| ComponentsCount.CycleReachSet | graph/connected-components-count/connected_components_count_test.go:142-150 | in that graph every key's reach set is {1, 2, 3} |
| ComponentsCount.CycleIsOneComponent | graph/connected-components-count/connected_components_count_test.go:142-150 | that graph has symmetric reachability, no sentinel key and exactly one component |
| ComponentsCount.CycleScenario | graph/connected-components-count/connected_components_count_test.go:47-55 | counting that directed graph gives 1 with the stack and with the queue strategy, as both tests expect |
| GraphEdge.AddEdge | graph/graph_edge.go:23-51 | one edge adds its endpoints as keys (unless it is not a pair) and appends its destination, and in bidirectional mode its source, to the right lists |
| GraphEdge.GenerateGraphFromEdges | graph/graph_edge.go:14-55 | the result's keys are the endpoints of the valid edges, and each key maps to its neighbours edge by edge, duplicates kept |
| GraphEdge.AdjacencyOfEndpoints | graph/graph_edge.go:30-39 | a node that is no endpoint has no neighbours |
| GraphEdge.InAdjacency | graph/graph_edge.go:42-51 | n is listed under v exactly when some valid edge goes from v to n, or, in bidirectional mode, from n to v |
| GraphEdge.EndpointsOfEdges | graph/graph_edge.go:27-39 | both ends of every valid edge become keys |
| GraphEdge.EndpointsComeFromEdges | graph/graph_edge.go:27-39 | every key is an end of some valid edge |
| GraphEdge.BidirectionalIsSymmetric | graph/graph_edge.go:45-51 | a bidirectional graph is symmetric: every listed neighbour is a key that lists the node back |
| GraphEdge.InvalidEdgeIsSkipped | graph/graph_edge.go:23-25 | an edge that is not a pair changes nothing |
| GraphEdge.TargetsAppend | graph/graph_edge.go:18-42 | the directional targets of two edge lists are those of the first followed by those of the second |
| GraphEdge.DirectionalTargets | graph/graph_edge.go:41-42 | in directional mode a key's list is exactly the destinations of its edges, in input order |
| GraphEdge.DuplicateEdgesLists | graph/graph_edge_test.go:176-186 | the same bidirectional edge twice gives endpoints A and B, the list B, B for A and the list A, A for B |
| GraphEdge.DuplicateEdgesScenario | graph/graph_edge_test.go:176-186 | the bidirectional duplicate-edge test gives exactly A: [B, B], B: [A, A] |
| GraphEdge.InvalidEdgeLists | graph/graph_edge_test.go:140-150 | a valid edge followed by a one-element one in directional mode gives endpoints A and B, the list B for A and an empty list for B |
| GraphEdge.InvalidEdgeScenario | graph/graph_edge_test.go:140-150 | the directional invalid-edge test gives exactly A: [B], B: [] |
| LinkedLists.Node.constructor | data-structures/linked-list/linked_list.go:11-14 | a node holds the given value and successor |
| LinkedLists.Insert | data-structures/linked-list/linked_list.go:107-121 | placing x at position j shifts the later elements up by one and keeps the earlier ones |
| LinkedLists.LinkedList.constructor | data-structures/linked-list/linked_list.go:16-19 | the zero list is empty |
| LinkedLists.LinkedList.First | data-structures/linked-list/linked_list.go:21-23 | the head node, nil exactly for an empty list |
| LinkedLists.LinkedList.Last | data-structures/linked-list/linked_list.go:25-27 | the tail node, which is the last of the spine, nil exactly for an empty list |
| LinkedLists.LinkedList.AddFirst | data-structures/linked-list/linked_list.go:29-38 | the value is prepended and the old spine follows the new head |
| LinkedLists.LinkedList.AddLast | data-structures/linked-list/linked_list.go:40-49 | the value is appended after the old tail |
| LinkedLists.LinkedList.RemoveFirst | data-structures/linked-list/linked_list.go:51-61 | nil for an empty list; otherwise the head node is returned and unlinked, and the tail is cleared when the list becomes empty |
| LinkedLists.LinkedList.RemoveLast | data-structures/linked-list/linked_list.go:63-81 | nil for an empty list; otherwise the tail node is returned and the node before it becomes the tail |
| LinkedLists.LinkedList.IndexAt | data-structures/linked-list/linked_list.go:83-89 | the node at position index (position 0 for any negative index), or nil past the end |
| LinkedLists.LinkedList.RemoveAfter | data-structures/linked-list/linked_list.go:99-104 | the successor of prev is returned and unlinked, and the tail moves back when it was the tail |
| LinkedLists.LinkedList.RemoveAt | data-structures/linked-list/linked_list.go:91-105 | removes and returns the node at Position(index), which is 1 for a negative index; nil and no change when the list is too short |
| LinkedLists.LinkedList.InsertAfter | data-structures/linked-list/linked_list.go:117-120 | the new node is linked in right after prev, and it becomes the tail when it is last |
| LinkedLists.LinkedList.AddAt | data-structures/linked-list/linked_list.go:107-121 | inserts the value at Position(index), which is 1 for a negative index; no change when the list is too short |
| LinkedLists.NegativeRemoveAtScenario | data-structures/linked-list/linked_list.go:91-105 | on [1, 2], RemoveAt(-1) returns the node holding 2 and leaves [1] |
| LinkedLists.NegativeAddAtScenario | data-structures/linked-list/linked_list.go:107-121 | on [1, 2], AddAt(-1, 9) gives [1, 9, 2] |
| LinkedLists.RemoveAtInRange | data-structures/linked-list/linked_list.go:91-105 | the corrected RemoveAt: the node at index for 0 <= index < length, otherwise nil and no change |
| LinkedLists.AddAtInRange | data-structures/linked-list/linked_list.go:107-121 | the corrected AddAt: insertion at index for 0 <= index <= length, otherwise no change |
| LinkedLists.ListScenario | data-structures/linked-list/linked_list.go:29-81 | a short sequence of adds and removes returns the expected end nodes and leaves the expected contents |
| Fibonacci.Memo.constructor | dp/fib/domain/fib.go:3 | the memo starts empty |
| Fibonacci.Memo.Fib | dp/fib/domain/fib.go:5-17 | the result is the Fibonacci number of n (n itself for n <= 1), whatever the memo held; entries are only added, and n >= 2 is stored |
| Fibonacci.FibonacciGrows | dp/fib/domain/fib.go:10-14 | Fibonacci numbers of natural numbers are natural and never decrease |
| Fibonacci.FibScenario | dp/fib/domain/fib.go:5-17 | Fib(10) is 55, and asking again answers 55 from the memo |
| GridTraveling.Memo.constructor | dp/grid-traveler/domain/grid-traveler.go:3 | the memo starts empty |
| GridTraveling.Memo.GridTraveler | dp/grid-traveler/domain/grid-traveler.go:5-25 | the result is the number of down/right routes across an x-by-y grid (0 whenever a side is 0, even with the other negative), whatever the memo held, and the memo stays correct |
| GridTraveling.NegativeSideScenario | dp/grid-traveler/domain/grid-traveler.go:7-13 | a zero side answers 0 even when the other side is negative: the lookup misses and the base case answers |
| GridTraveling.RoutesAreBinomial | dp/grid-traveler/domain/grid-traveler.go:11-24 | the route count of an x-by-y grid is the binomial coefficient C(x + y - 2, x - 1) |
| GridTraveling.RoutesSymmetric | dp/grid-traveler/main.go:13-14 | an x-by-y grid has as many routes as a y-by-x grid |
| GridTraveling.GridScenario | dp/grid-traveler/main.go:15 | a 3-by-3 grid has 6 routes, also when read back from the memo |
| CanSumming.SummableFromExists | dp/can-sum/domain/can-sum.go:13-22 | the loop from element i answers true exactly when some later element leaves a summable remainder |
| CanSumming.SummableStep | dp/can-sum/domain/can-sum.go:13-22 | above 0, a target is summable exactly when some element leaves a summable remainder |
| CanSumming.SummableComplete | dp/can-sum/domain/can-sum.go:5-23 | completeness: every sum of array elements (repeats allowed) is answered true |
| CanSumming.SumOfDrawnIsNatural | dp/can-sum/domain/can-sum.go:5-23 | a sum of positive elements is not negative |
| CanSumming.Memo.constructor | dp/can-sum/domain/can-sum.go:3 | the memo starts empty |
| CanSumming.Memo.CanSum | dp/can-sum/domain/can-sum.go:5-23 | the result is the summability of the target, whatever the memo held; new entries have keys in (0, target] |
| CanSumming.CanSumScenario | dp/can-sum/main.go:12-13 | 6 can be summed from [5, 3, 4, 7], and 7 cannot be summed from [2, 4] |
| CanSumming.OddNotSummable | dp/can-sum/main.go:13 | with only even elements, no odd target can be summed |
| HowSumming.DecompositionSound | dp/how-sum/domain/how-sum.go:5-26 | soundness: a returned list sums to the target and uses only array elements |
| HowSumming.DecompositionFromSound | dp/how-sum/domain/how-sum.go:15-23 | the loop from element i returns only lists that sum to the target and use array elements |
| HowSumming.DecompositionExactlyWhenSummable | dp/how-sum/domain/how-sum.go:5-26 | HowSum returns nil exactly when CanSum answers false |
| HowSumming.DecompositionFromExactlyWhenSummableFrom | dp/how-sum/domain/how-sum.go:15-25 | the loop from element i returns nil exactly when CanSum's loop from i answers false |
| HowSumming.NoDecomposition | dp/how-sum/domain/how-sum.go:15-25 | above 0, nil exactly when every element leaves a remainder without a decomposition |
| HowSumming.SummableHasWitness | dp/how-sum/domain/how-sum.go:5-26 | soundness of CanSum: a target answered true is the sum of some list of array elements |
| HowSumming.SummableMoreElements | dp/how-sum/domain/how-sum.go:15-23 | allowing more elements keeps every summable target summable |
| HowSumming.Memo.constructor | dp/how-sum/domain/how-sum.go:3 | the memo starts empty |
| HowSumming.Memo.HowSum | dp/how-sum/domain/how-sum.go:5-26 | the result is the first decomposition found in array order, whatever the memo held; each entry written holds the decomposition of its key |
| HowSumming.HowSumScenario | dp/how-sum/main.go:12 | HowSum(100, [14, 5]) returns a list of 14s and 5s that sums to 100 |

## Left out

- I/O: the `main.go` programs only print, and they are represented by the scenarios above. No console output is modelled.
- Go map iteration order is modelled as an arbitrary choice, in `ConnectedComponentsCount`'s range loop. Go itself leaves that order unspecified.
- `graph[start] == nil` in DFS and BFS (dfs.go:43, bfs.go:43) is modelled as "start is not a key". A key bound to a nil slice, for which Go returns an empty result, is treated like a key bound to an empty slice, and search goes on from it.
- Slices as shared buffers are not modelled: aliasing of `ToSlice`'s result with the container, `append` reusing capacity, and the memory held by resliced queues. Values are sequences.
- The callers of the linked list can change the `Node`s it returns (their `Next` still points into the list after a removal). The model states the list's own state only.
- Integer overflow: Go's `int` is 64-bit and the model uses unbounded integers, so it does not wrap around. None of the repository's own calls comes near the bound: `GridTraveler(18, 18)` is about 2.3 billion.
- The list's value type constraint (strings, integers, floats and slices of them) becomes an unconstrained type parameter. Nothing in the list depends on the values.
- Error texts: each error is a constructor (`InvalidElement`, `EmptyContainer`) instead of a string. `StringItem.NewItem` (graph/has-path/has_path.go:33-35) is not called by the core and is not modelled.
- `StackStringItem` (dfs.go) and `QueueStringItem` (bfs.go) behave exactly like `StringItem`, so they share `Common.StringItemFactory`.
- GridTraveling.Memo.GridTraveler: requires a zero side or two non-negative sides. A negative side with the other side non-zero makes the Go recursion run on without reaching a base case.
- CanSumming.Memo.CanSum: requires positive elements, because with a zero or negative element the Go recursion need not terminate.
- HowSumming.Memo.HowSum: requires positive elements, for the same reason.
- The memo tables are package-level variables in Go. Here each is a field of one `Memo` object that the caller passes along.
- ComponentsCount.ConnectedComponentsCount: the count can depend on the iteration order when reachability between keys is not symmetric (for example {1: [2], 2: []}), when a neighbour is not a key, or when a key is a sentinel. The contract then states only its bounds (at most the number of keys, at least 1 when there are keys).
- ComponentsCount.Flood: Go's `return count, err` after a failed `Next` (connected_components_count.go:61-64) cannot happen, because the loop only calls `Next` when something is pending. The contract states `err == None`.
- HasPathSearch.HasPath: the error for a failed `Next` (has_path.go:75-77) is in the model, in `Explore`, but it is proved unreachable, because `Next` is only called when something is pending. The contract therefore names `InvalidElement` as the only error.
- The `break` after a failed `Pop` or `Dequeue` in DFS and BFS (dfs.go:54-57, bfs.go:54-57) is kept in the model, and it is unreachable for the same reason.

## Findings

| source | as written | input that shows it | evidently intended | confidence | as-written member | corrected member |
|---|---|---|---|---|---|---|
| data-structures/linked-list/linked_list.go:91-105 | for a negative index, `IndexAt(index - 1)` stops at the head and the node at position 1 is removed | list [1, 2], `RemoveAt(-1)`: returns the node 2 and leaves [1] | a negative index is out of range: nil and no change | medium, not executed | LinkedLists.NegativeRemoveAtScenario | LinkedLists.RemoveAtInRange |
| data-structures/linked-list/linked_list.go:107-121 | for a negative index, the value is inserted after the head | list [1, 2], `AddAt(-1, 9)`: gives [1, 9, 2] | a negative index is out of range: no change | medium, not executed | LinkedLists.NegativeAddAtScenario | LinkedLists.AddAtInRange |
