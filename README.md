# Travelling salesman tour over crime records: Prim's tree, pre-order walk, exhaustive search

The modelled program reads crime records, makes each record a vertex of a
complete graph, and builds an n-by-n cost matrix between the records. It
then runs Prim's algorithm from record 0 with a binary min-heap, keyed on
each node's minimum cost. The heap removes a node from the middle by moving
the last entry into its slot and sifting. One child heap per vertex records
the spanning tree.

A pre-order walk of the tree drains the child heaps, cheapest child first.
Keeping the first visit of every vertex gives a Hamiltonian cycle, whose
closed cost is recorded. Finally, every ordering of the cycle's vertices is
tried as a closed tour, and the cheapest one is kept.

The project proves the following:

- The heap operations keep the heap valid: every entry has a cost, and no
  entry is cheaper than its parent. Each operation changes the heap's
  contents exactly as it promises.
- Prim's loop keeps an invariant with these parts:
  - the visit order;
  - the tree edges, each costed as its child's key;
  - the global heap holds exactly the reached, unvisited nodes;
  - each child heap holds exactly its vertex's children;
  - Prim's cut property: a vertex's key is no larger than any edge to it
    from a scanned, visited vertex.
- The walk from vertex 0 has 2n - 1 entries, visits every vertex, and
  empties every child heap.
- The Hamiltonian cycle is a tour of all vertices that starts at vertex 0.
- The search visits exactly n! orderings. No tour is cheaper than the cost
  it keeps.

Files and modules:

- `nodes.dfy` (`Nodes`): the vertex record.
- `sequences.dfy` (`Sequences`): list helpers.
- `heap.dfy` (`Heaps`): `Heap.java`.
- `costmatrix.dfy` (`CostMatrix`): `populateAdjMatrix`.
- `cycles.dfy` (`Cycles`): path costs and the Hamiltonian cycle.
- `spanningtree.dfy` (`SpanningTree`): `buildMinimumSpanningTree` up to line 180.
- `walk.dfy` (`Walks`): `getPreOrderWalk`.
- `tour.dfy` (`Tours`): the rest of the tour, the search and the constructor.

Two notes on the code as written. The model follows the code in both cases.

- `optimalPath` keeps the open Hamiltonian path, without the return to
  vertex 0, when no ordering is strictly cheaper than it. An improvement
  stores a closed path, which repeats its first vertex at the end. The
  constructor's contract states both cases.
- The comment at TSP_Tour.java:98-100 speaks of paths starting and ending
  at vertex 0. `permute` in fact tries every ordering, including those
  that start elsewhere, so it visits n! orderings. `Cycles.ClosedCostRotation`
  shows that a rotation of a closed tour costs the same.

## Model

| member | source | states |
|---|---|---|
| Nodes.FreshNodes | src/andrew/cmu/edu/abhineec/TSP_Tour.java:82 | the node list as created: node i describes vertex i, with no cost and no parent |
| Heaps.Heap.constructor | src/andrew/cmu/edu/abhineec/Heap.java:17-19 | a new heap is empty and valid |
| Heaps.Heap.Add | src/andrew/cmu/edu/abhineec/Heap.java:28-31 | adding a node with a cost keeps the heap valid; the contents gain exactly that node and the length grows by one |
| Heaps.Heap.RemoveMin | src/andrew/cmu/edu/abhineec/Heap.java:41-50 | returns the old root, whose cost no entry undercuts; the contents lose exactly that node and the heap stays valid |
| Heaps.Heap.Peek | src/andrew/cmu/edu/abhineec/Heap.java:60-64 | None exactly when the heap is empty, otherwise the root, which is a cheapest entry |
| Heaps.Heap.IsEmpty | src/andrew/cmu/edu/abhineec/Heap.java:69-71 | true exactly when the heap holds no entry |
| Heaps.Heap.RemoveNode | src/andrew/cmu/edu/abhineec/Heap.java:80-87 | removing a held node keeps the heap valid and the contents lose exactly one copy of it; when it was the last entry, the rest is unchanged |
| Heaps.Heap.MinHeapify | src/andrew/cmu/edu/abhineec/Heap.java:97-118 | from a heap ordered everywhere except around index, restores the full heap order with the same entries and the same length |
| Heaps.Heap.Swap | src/andrew/cmu/edu/abhineec/Heap.java:123-127 | exchanges positions i and j and nothing else, so the contents are unchanged |
| Heaps.RootIsMinimum | src/andrew/cmu/edu/abhineec/Heap.java:89-96 | in a heap-ordered list, position 0 holds a cheapest entry |
| Heaps.MoveLastKeepsOrder | src/andrew/cmu/edu/abhineec/Heap.java:80-85 | moving the last entry into slot k of a valid heap leaves it ordered everywhere except around k |
| Heaps.SiftUpStep | src/andrew/cmu/edu/abhineec/Heap.java:101-103 | swapping an entry cheaper than its parent moves the only disorder up to the parent |
| Heaps.SiftDownStep | src/andrew/cmu/edu/abhineec/Heap.java:105-115 | swapping an entry with its cheapest child, when that child is cheaper, moves the only disorder down to the child |
| Heaps.SiftDone | src/andrew/cmu/edu/abhineec/Heap.java:105-117 | when an entry is no cheaper than its parent and no dearer than its children, the whole list is heap-ordered |
| CostMatrix.PopulateAdjMatrix | src/andrew/cmu/edu/abhineec/TSP_Tour.java:298-312 | an n-by-n matrix with a zero diagonal and the distance between the records elsewhere; symmetric and non-negative whenever the distance is |
| Cycles.GetCostOfPath | src/andrew/cmu/edu/abhineec/TSP_Tour.java:255-262 | the loop's sum equals PathCost, the sum of the costs of consecutive steps |
| Cycles.PathCostAppend | src/andrew/cmu/edu/abhineec/TSP_Tour.java:255-262 | the cost of a concatenation is the costs of the parts plus the joining edge |
| Cycles.PathCostNonNegative | src/andrew/cmu/edu/abhineec/TSP_Tour.java:255-262 | over a non-negative matrix every path costs at least zero |
| Cycles.ClosedCostRotation | src/andrew/cmu/edu/abhineec/TSP_Tour.java:224-230 | a rotation of an ordering has the same cost as a closed tour |
| Cycles.FirstOccurrencesProperties | src/andrew/cmu/edu/abhineec/TSP_Tour.java:270-275 | the first visits of a walk have no repeats and the same vertex set as the walk; they start with the walk's first vertex and are ordered by first visit |
| Cycles.GetHamiltonianCycle | src/andrew/cmu/edu/abhineec/TSP_Tour.java:267-279 | the loop yields the first visits of the walk closed by its first vertex: no repeats before the closing vertex, and the same vertices as the walk |
| SpanningTree.InitialState | src/andrew/cmu/edu/abhineec/TSP_Tour.java:144-148 | with only vertex 0 reached and queued, Prim's invariant and the cut property hold |
| SpanningTree.VisitStep | src/andrew/cmu/edu/abhineec/TSP_Tour.java:150-154 | visiting a queued vertex moves it from the queue to the visit order, keeps Prim's invariant, and keeps the cut property for every scanned vertex; only the new vertex's own edges are still unscanned |
| SpanningTree.ReachStep | src/andrew/cmu/edu/abhineec/TSP_Tour.java:160-166 | reaching an unreached neighbour through u keeps Prim's invariant, and the cut property now covers that neighbour |
| SpanningTree.RelaxStep | src/andrew/cmu/edu/abhineec/TSP_Tour.java:167-176 | re-parenting a queued neighbour to u along a strictly cheaper edge keeps Prim's invariant; its old node is in the global heap and in its old parent's child heap |
| SpanningTree.AddReached | src/andrew/cmu/edu/abhineec/TSP_Tour.java:164-165 | the node enters the global heap and u's child heap, and no other heap changes |
| SpanningTree.Reattach | src/andrew/cmu/edu/abhineec/TSP_Tour.java:169-175 | the old node leaves the global heap and its old parent's child heap; the new node enters the global heap and u's child heap |
| SpanningTree.ReachNeighbour | src/andrew/cmu/edu/abhineec/TSP_Tour.java:160-166 | the neighbour gets cost adj[u][nb] and parent u; the heaps and Prim's invariant follow |
| SpanningTree.RelaxNeighbour | src/andrew/cmu/edu/abhineec/TSP_Tour.java:167-176 | the neighbour gets the cheaper cost and parent u; the heaps and Prim's invariant follow |
| SpanningTree.ConsiderNeighbour | src/andrew/cmu/edu/abhineec/TSP_Tour.java:160-176 | only the neighbour may change, and only to a strictly cheaper cost from u or from no cost; Prim's invariant and the cut property extend past it |
| SpanningTree.ScanNeighbours | src/andrew/cmu/edu/abhineec/TSP_Tour.java:157-177 | after the scan every vertex is reached; each node kept its cost or improved it through u; the invariant holds |
| SpanningTree.ScanReachesAll | src/andrew/cmu/edu/abhineec/TSP_Tour.java:157-177 | once a visited vertex's edges are all scanned, every vertex has a cost |
| SpanningTree.VisitNext | src/andrew/cmu/edu/abhineec/TSP_Tour.java:152-154 | the cheapest queued node is extracted and its vertex marked visited and appended to the visit order; Prim's invariant holds |
| SpanningTree.PrimRound | src/andrew/cmu/edu/abhineec/TSP_Tour.java:152-179 | one round visits one more vertex and keeps the invariant and the cut property; the next node is the new root, or None when the heap is empty |
| SpanningTree.NewChildHeaps | src/andrew/cmu/edu/abhineec/TSP_Tour.java:138-140 | one fresh, empty, valid heap per vertex, no two of them the same object |
| SpanningTree.InitialQueue | src/andrew/cmu/edu/abhineec/TSP_Tour.java:144-148 | the global heap holds the start node alone, nothing is visited, and the invariant holds |
| SpanningTree.PrimLoop | src/andrew/cmu/edu/abhineec/TSP_Tour.java:150-180 | the loop ends with the global heap empty, every vertex reached and the invariant holding |
| SpanningTree.PrimDone | src/andrew/cmu/edu/abhineec/TSP_Tour.java:150-180 | an empty queue with every vertex reached means every vertex was visited once; each non-root vertex hangs off an earlier-visited parent by an edge of its key |
| SpanningTree.TreeDone | src/andrew/cmu/edu/abhineec/TSP_Tour.java:135-180 | the final state read off the child heaps: each non-root node is held once in its parent's child heap, and each held entry is current |
| SpanningTree.BuildMinimumSpanningTree | src/andrew/cmu/edu/abhineec/TSP_Tour.java:135-180 | Prim's algorithm from vertex 0 leaves every vertex reached; each other vertex has a parent visited before it and a key equal to that edge's cost; each vertex sits once in its parent's child heap |
| Walks.PartialStart | src/andrew/cmu/edu/abhineec/TSP_Tour.java:285 | the walk that has only entered s satisfies the walk invariant |
| Walks.PartialStep | src/andrew/cmu/edu/abhineec/TSP_Tour.java:288-292 | taking a child out of s's heap, walking its subtree and returning to s extends the walk invariant, and s's heap shrinks |
| Walks.WalkedClosed | src/andrew/cmu/edu/abhineec/TSP_Tour.java:284-293 | a finished walk contains every child of each of its vertices, whose heaps are all empty |
| Walks.GetPreOrderWalk | src/andrew/cmu/edu/abhineec/TSP_Tour.java:284-293 | appends a walk of startNode's subtree that starts and ends there; each step follows a tree edge; the walk has 2m - 1 entries for m vertices, and the heaps on it are drained |
| Walks.WalkChild | src/andrew/cmu/edu/abhineec/TSP_Tour.java:288-292 | one round keeps the walk invariant and strictly shrinks startNode's heap |
| Walks.WalkSubtree | src/andrew/cmu/edu/abhineec/TSP_Tour.java:290-291 | the child's subtree walk followed by the return to s keeps the walk invariant |
| Walks.TakeChild | src/andrew/cmu/edu/abhineec/TSP_Tour.java:289 | exactly one entry leaves s's child heap, and no other heap changes |
| Walks.WalkCoversTree | src/andrew/cmu/edu/abhineec/TSP_Tour.java:284-293 | a walk from the root that holds every child of its vertices reaches every vertex |
| Tours.PrimTreeRooted | src/andrew/cmu/edu/abhineec/TSP_Tour.java:135-184 | the child heaps Prim's algorithm leaves form a tree rooted at 0, as the walk needs |
| Tours.RootedTreeShape | src/andrew/cmu/edu/abhineec/TSP_Tour.java:182-184 | a rooted tree meets the walk's precondition |
| Tours.WalkedWholeTree | src/andrew/cmu/edu/abhineec/TSP_Tour.java:182-184 | the finished walk from the root starts at 0, visits every vertex and has 2n - 1 entries |
| Tours.WalkedEmptiesTree | src/andrew/cmu/edu/abhineec/TSP_Tour.java:182-184 | the finished walk from the root leaves every child heap empty |
| Tours.WalkWholeTree | src/andrew/cmu/edu/abhineec/TSP_Tour.java:182-184 | the walk of Prim's tree starts at 0, covers every vertex, has 2n - 1 entries and drains every child heap |
| Tours.TourFromWalk | src/andrew/cmu/edu/abhineec/TSP_Tour.java:193-204 | the cycle without its closing vertex is a tour of all n vertices starting at 0; its recorded cost is the closed cost of that tour |
| Tours.HamiltonianFromTree | src/andrew/cmu/edu/abhineec/TSP_Tour.java:182-209 | the walk and cycle of Prim's tree give a tour from 0 and its closed cost, and leave every child heap empty |
| Tours.PlanTour | src/andrew/cmu/edu/abhineec/TSP_Tour.java:82-96 | the cost matrix; Prim's nodes, whose parent links form a tree rooted at record 0 (each parent visited before its child) with each key the cost of the edge to the parent; and a Hamiltonian tour from 0 costed as a closed cycle |
| Tours.PathToRoot | src/andrew/cmu/edu/abhineec/TSP_Tour.java:160-176 | in a tree of parents visited before their children, following parent links from any vertex ends at the root 0, passing it only at the end |
| Tours.CountNotInElements | src/andrew/cmu/edu/abhineec/TSP_Tour.java:242-243 | counted over a list without repeats, the entries missing from cp are its elements outside cp |
| Tours.CountNotInAll | src/andrew/cmu/edu/abhineec/TSP_Tour.java:242-243 | a partial ordering of k vertices leaves exactly n - k vertices for the loop to place |
| Tours.ToursComplete | src/andrew/cmu/edu/abhineec/TSP_Tour.java:98-105 | the completions of the empty ordering are exactly the tours of all n vertices |
| Tours.CompletionNext | src/andrew/cmu/edu/abhineec/TSP_Tour.java:240-249 | every completion longer than cp places next a vertex not in cp, and completes cp extended by it |
| Tours.FactorialRecurrence | src/andrew/cmu/edu/abhineec/TSP_Tour.java:232 | the count of orderings satisfies 0! = 1 and n! = n * (n - 1)! |
| Tours.BatchesProduct | src/andrew/cmu/edu/abhineec/TSP_Tour.java:242-249 | k rounds of size orderings each add up to k * size |
| Tours.RoundSkip | src/andrew/cmu/edu/abhineec/TSP_Tour.java:243 | skipping a vertex already in cp loses no completion |
| Tours.RoundTried | src/andrew/cmu/edu/abhineec/TSP_Tour.java:243-248 | after the completions that place v next are tried, no such completion is cheaper than the best; the best is the old one or a cheaper completion of cp |
| Tours.RoundsDone | src/andrew/cmu/edu/abhineec/TSP_Tour.java:242-249 | once every vertex has had its round, no completion of cp is cheaper than the best |
| Tours.LeafBest | src/andrew/cmu/edu/abhineec/TSP_Tour.java:224-236 | keeping a full ordering when strictly cheaper leaves the best over its one completion |
| Tours.OptimumOverTours | src/andrew/cmu/edu/abhineec/TSP_Tour.java:98-105 | the search from the empty ordering leaves a cost that no tour of all vertices beats |
| Tours.IncumbentIsTour | src/andrew/cmu/edu/abhineec/TSP_Tour.java:103-105 | the kept path is the starting Hamiltonian path, or a strictly cheaper closed tour of all vertices with its true cost |
| Tours.Tour.constructor | src/andrew/cmu/edu/abhineec/TSP_Tour.java:60-105 | the matrix; Prim's nodes, whose parent links form a tree rooted at 0 with each key the cost of the edge to the parent; a Hamiltonian tour from 0 and its closed cost; n! orderings visited; no tour beats the optimal cost, which is at most the Hamiltonian cost; the optimal path is the Hamiltonian path, or a strictly cheaper closed tour with its true cost |
| Tours.Tour.Permute | src/andrew/cmu/edu/abhineec/TSP_Tour.java:222-250 | visits (n - k)! orderings; no completion of currentPath beats the best; the best only improves, and currentPath comes back unchanged |
| Tours.Tour.Visit | src/andrew/cmu/edu/abhineec/TSP_Tour.java:224-238 | a full ordering is counted once and costed as a closed tour; it is kept exactly when strictly cheaper |
| Tours.Tour.TryAll | src/andrew/cmu/edu/abhineec/TSP_Tour.java:240-249 | the loop over the path tries, for each vertex not in currentPath, every completion placing it next; it counts (n - k)! orderings |
| Tours.Tour.TryVertex | src/andrew/cmu/edu/abhineec/TSP_Tour.java:242-249 | one iteration extends the loop invariant: the vertex is tried when absent and skipped when present |
| Tours.Tour.Place | src/andrew/cmu/edu/abhineec/TSP_Tour.java:243-248 | places v, tries every completion, counts (n - k - 1)! orderings, then removes v, so currentPath is restored |

## Left out

- Reading the crime file, filtering records by date, and printing results are not modelled. Neither are the results file, the KML output (`createKMLFile`) or the conversion of costs to miles. This is all I/O.
- `main` and the command-line handling are not modelled. They only call the constructor.
- Costs are mathematical integers, not Java `double`s, so rounding and NaN are not modelled. `Double.compare(a, b) > 0` becomes `a > b`.
- Tours.Tour.constructor: the permutation counter is a Java `long`; the model's count is unbounded, so it does not wrap (it would wrap only past 20!, more orderings than any run can visit).
- The distance between two records is a function parameter. `calculateDistance` and the `Crime` record's coordinate parsing are not part of this model.
- Nodes are values, not shared mutable objects. A field update in Java reaches the `nodes` list and every heap holding the node at once. The model replaces the list entry and proves that every held heap entry equals the current node. Java's identity-based `indexOf` becomes value equality, which this invariant makes coincide with identity.
- `permute`'s shared `currentPath` list is modelled as a value passed in and handed back. The model proves the list is restored, but does not model aliasing of one list across calls.
- Tours.Tour.constructor requires at least one record. With none, `nodes.get(0)` throws.
- Heaps.Heap.Add requires the node to have a cost. Java's `minHeapify` would throw on a null cost.
- Heaps.Heap.RemoveNode requires the node to be in the heap. Java's `heap.set(-1, …)` would throw otherwise.
- Heaps.Heap.RemoveMin requires a non-empty heap. Java's `heap.get(0)` would throw otherwise.
- Cycles.GetHamiltonianCycle requires a non-empty walk. Java's `preOrderWalk.get(0)` would throw otherwise; the walk from the root always holds the root.
- SpanningTree.BuildMinimumSpanningTree: the model proves Prim's cut invariant, but not that the resulting tree has minimum total weight.
- Tours.Tour.constructor: the model does not prove that the Hamiltonian cycle costs at most twice the optimum. That bound needs the triangle inequality, which an abstract distance need not satisfy.
- Walks.GetPreOrderWalk: the contract does not fix the order in which children are walked. The child heaps yield the cheapest first, which the model gets from `RemoveMin`.
- Tours.Tour.Permute: the model does not prove that the kept ordering starts at vertex 0. A rotation costs the same (`Cycles.ClosedCostRotation`), but the model does not prove which of several equally cheap orderings is kept.
